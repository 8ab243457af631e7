/** Attribute ids, data types and values as the offline schedule sees them.
    The value codec itself (`AttributeValue(type:slice:)`, the value's byte
    array, `suited()`) lives outside the schedule; it is a parameter here, and
    its round trip is a hypothesis (`Lawful`) rather than a fact. */
module Attributes {
  import opened Common

  /** An attribute id as it goes on the wire (`UInt16(id)`). */
  type AttributeId = x: int | 0 <= x < 0x1_0000

  /** `DeviceProfile.AttributeDescriptor.DataType`. */
  datatype DataType =
    | Boolean | SInt8 | SInt16 | SInt32 | SInt64
    | Q1516 | Q3132 | Float32 | Float64
    | Bytes | Utf8S

  /** `DataType.size`: the fixed width of a type, `None` for the
      variable-length ones. */
  function FixedSize(t: DataType): (r: Option<nat>)
    ensures r.None? <==> t == Bytes || t == Utf8S
    ensures r.Some? ==> 1 <= r.value <= 8
  {
    match t
    case Boolean => Some(1)
    case SInt8 => Some(1)
    case SInt16 => Some(2)
    case SInt32 => Some(4)
    case SInt64 => Some(8)
    case Q1516 => Some(4)
    case Q3132 => Some(8)
    case Float32 => Some(4)
    case Float64 => Some(8)
    case Bytes => None
    case Utf8S => None
  }

  /** An attribute value: its data type and its byte array. */
  datatype AttributeValue = AttributeValue(dataType: DataType, payload: seq<byte>)

  /** `.rawBytes(b)`. */
  function RawBytes(b: seq<byte>): AttributeValue
  {
    AttributeValue(Bytes, b)
  }

  /** A fixed-width value whose byte array has its type's width. */
  predicate FixedWidth(v: AttributeValue)
  {
    FixedSize(v.dataType).Some? && |v.payload| == FixedSize(v.dataType).value
  }

  /** The external conversions: `AttributeValue(type:slice:)` and
      `suited() as Int16`. */
  datatype ValueCodec = ValueCodec(
    decode: (DataType, seq<byte>) -> Option<AttributeValue>,
    toInt16: AttributeValue -> Option<bv16>)

  /** The assumed round trip of the external codec: reading back the byte
      array of a fixed-width value gives the value. */
  ghost predicate Lawful(codec: ValueCodec)
  {
    forall v: AttributeValue :: FixedWidth(v) ==> codec.decode(v.dataType, v.payload) == Some(v)
  }
}
