/** A schedule event — a time specification plus the attribute values to
    write at that time — and its wire form: the 4 time-spec bytes followed,
    for each attribute id in ascending order, by the id as a little-endian
    u16 and the value's bytes. */
module ScheduleEvents {
  import opened Common
  import opened TimeSpecs
  import opened Attributes

  datatype ScheduleEvent = ScheduleEvent(ts: TimeSpec, attributes: map<AttributeId, AttributeValue>)

  /** Event `==`: equal time specs (under their own `==`) and equal
      attribute maps. */
  predicate EventEq(a: ScheduleEvent, b: ScheduleEvent)
  {
    Same(a.ts, b.ts) && a.attributes == b.attributes
  }

  /** Event `<`: the time specs' order; attributes play no part. */
  predicate EventLess(a: ScheduleEvent, b: ScheduleEvent)
  {
    Less(a.ts, b.ts)
  }

  /** Event `==` is an equivalence and event `<` never holds between equal
      events, so `<` with `==` is a strict order whose ties may differ in
      their attributes. */
  lemma EventOrder(a: ScheduleEvent, b: ScheduleEvent, c: ScheduleEvent)
    ensures EventEq(a, a)
    ensures EventEq(a, b) ==> EventEq(b, a)
    ensures EventEq(a, b) && EventEq(b, c) ==> EventEq(a, c)
    ensures EventEq(a, b) ==> !EventLess(a, b) && !EventLess(b, a)
    ensures EventLess(a, b) && EventLess(b, c) ==> EventLess(a, c)
    ensures !EventLess(a, b) && !EventLess(b, a) ==> Same(a.ts, b.ts)
  {
    Trichotomy(a.ts, b.ts);
    if EventLess(a, b) && EventLess(b, c) {
      LessTransitive(a.ts, b.ts, c.ts);
    }
  }

  // ---------------------------------------------------------------------
  // Encoding.

  /** `CFSwapInt16HostToLittle(UInt16(id)).bytes`. */
  function LittleEndian16(id: AttributeId): (r: seq<byte>)
    ensures |r| == 2
  {
    [(id % 256) as byte, (id / 256) as byte]
  }

  /** `CFSwapInt16LittleToHost(UInt16(byteArray:))`. */
  function ReadLittleEndian16(lo: byte, hi: byte): AttributeId
  {
    lo as int + 256 * hi as int
  }

  lemma ByteMod(x: int)
    requires 0 <= x < 256
    ensures (x as byte) as int == x % 256
  {
  }

  lemma ModSmall(x: int)
    requires 0 <= x < 256
    ensures x % 256 == x
  {
  }

  /** A value below 256 survives the trip through a byte. The two steps are
      kept in separate lemmas so that the solver never has to combine the
      bit-vector conversion with the modulus itself. */
  lemma ByteValue(x: int)
    requires 0 <= x < 256
    ensures (x as byte) as int == x
  {
    ByteMod(x);
    ModSmall(x);
  }

  /** Reading back the two id bytes gives the id. */
  lemma LittleEndianRoundTrip(id: AttributeId)
    ensures ReadLittleEndian16(LittleEndian16(id)[0], LittleEndian16(id)[1]) == id
  {
    ByteValue(id % 256);
    ByteValue(id / 256);
  }

  /** The ids of an event's attributes in ascending order. */
  function SortedIds(attributes: map<AttributeId, AttributeValue>): seq<int>
  {
    InRange(attributes.Keys, 0, 0x1_0000)
  }

  /** The `(id, value)` tuples for `ids`, in that order. */
  function Tuples(ids: seq<int>, attributes: map<AttributeId, AttributeValue>): seq<byte>
    requires forall i :: 0 <= i < |ids| ==> ids[i] in attributes
  {
    if ids == [] then []
    else
      var id: AttributeId := ids[0];
      LittleEndian16(id) + attributes[id].payload + Tuples(ids[1..], attributes)
  }

  lemma SortedIdsSpec(attributes: map<AttributeId, AttributeValue>)
    ensures Increasing(SortedIds(attributes))
    ensures forall i :: 0 <= i < |SortedIds(attributes)| ==> SortedIds(attributes)[i] in attributes
    ensures forall id :: id in attributes ==> id in SortedIds(attributes)
    ensures |SortedIds(attributes)| == |attributes|
  {
    InRangeSpec(attributes.Keys, 0, 0x1_0000);
    InRangeCount(attributes.Keys, 0, 0x1_0000);
  }

  /** `ScheduleEvent.serialized.bytes`. */
  function SerializedBytes(e: ScheduleEvent): seq<byte>
  {
    SortedIdsSpec(e.attributes);
    Encode(e.ts) + Tuples(SortedIds(e.attributes), e.attributes)
  }

  /** `ScheduleEvent.serialized.types`: the data type of every attribute,
      which is the map a reader needs to parse the bytes back. */
  function SerializedTypes(e: ScheduleEvent): (r: map<int, DataType>)
    ensures r.Keys == e.attributes.Keys
    ensures forall id :: id in r ==> r[id] == e.attributes[id].dataType
    ensures (forall id :: id in e.attributes ==> FixedWidth(e.attributes[id])) ==> Decodable(e, r)
  {
    map id | id in e.attributes :: e.attributes[id].dataType
  }

  // ---------------------------------------------------------------------
  // Decoding.

  /** What `FromBytes` does with a buffer: an event and the bytes consumed,
      the `(nil, 0)` "incomplete" answer, a thrown error code, or a runtime
      trap. */
  datatype ParseOutcome =
    | Parsed(event: ScheduleEvent, consumed: nat)
    | Incomplete
    | Failed(code: int)
    | Trapped

  const TimeSpecError: int := -1010
  const UnknownIdError: int := -1007
  const VariableSizeError: int := -1008
  const ValueError: int := -1011

  /** Time spec, one id, and the smallest value. */
  const MinSize: nat := SerializedSize + 2 + 1

  /** The tuples from `offset` on, given the time spec and the attributes
      read so far. Reading an id with one byte left slices past the end of
      the buffer, which traps. */
  function ParseTuples(bytes: seq<byte>, offset: nat, ts: TimeSpec,
                       read: map<AttributeId, AttributeValue>,
                       types: map<int, DataType>, codec: ValueCodec): ParseOutcome
    requires offset <= |bytes|
    decreases |bytes| - offset
  {
    if offset == |bytes| then Parsed(ScheduleEvent(ts, read), offset)
    else if |bytes| - offset < 2 then Trapped
    else
      var id := ReadLittleEndian16(bytes[offset], bytes[offset + 1]);
      if id !in types then Failed(UnknownIdError)
      else if FixedSize(types[id]).None? then Failed(VariableSizeError)
      else
        var expected := offset + 2 + FixedSize(types[id]).value;
        if |bytes| < expected then Incomplete
        else match codec.decode(types[id], bytes[offset + 2..expected])
          case None => Failed(ValueError)
          case Some(v) => ParseTuples(bytes, expected, ts, read[id := v], types, codec)
  }

  /** `ScheduleEvent.FromBytes`, as a function of the buffer. */
  function ParseEvent(bytes: seq<byte>, types: map<int, DataType>, codec: ValueCodec): ParseOutcome
  {
    if |bytes| < MinSize then Incomplete
    else match Decode(bytes[..SerializedSize])
      case None => Failed(TimeSpecError)
      case Some(ts) => ParseTuples(bytes, SerializedSize, ts, map[], types, codec)
  }

  /** `ScheduleEvent.FromBytes`: the header checks, then a loop reading one
      `(id, value)` tuple per pass and advancing `idOffset`. */
  method FromBytes(bytes: seq<byte>, types: map<int, DataType>, codec: ValueCodec) returns (r: ParseOutcome)
    ensures r == ParseEvent(bytes, types, codec)
  {
    if |bytes| < MinSize {
      return Incomplete;
    }
    var timeSpec := Decode(bytes[..SerializedSize]);
    if timeSpec.None? {
      return Failed(TimeSpecError);
    }
    var ts := timeSpec.value;
    var attributes: map<AttributeId, AttributeValue> := map[];
    var idOffset := SerializedSize;
    var consumed := 0;
    while idOffset < |bytes|
      invariant SerializedSize <= idOffset <= |bytes|
      invariant ParseTuples(bytes, idOffset, ts, attributes, types, codec) == ParseEvent(bytes, types, codec)
      invariant consumed == (if idOffset == SerializedSize then 0 else idOffset)
      decreases |bytes| - idOffset
    {
      if |bytes| - idOffset < 2 {
        return Trapped;
      }
      var id := ReadLittleEndian16(bytes[idOffset], bytes[idOffset + 1]);
      if id !in types {
        return Failed(UnknownIdError);
      }
      var valueSize := FixedSize(types[id]);
      if valueSize.None? {
        return Failed(VariableSizeError);
      }
      var expectedSize := idOffset + 2 + valueSize.value;
      if |bytes| < expectedSize {
        return Incomplete;
      }
      var value := codec.decode(types[id], bytes[idOffset + 2..expectedSize]);
      if value.None? {
        return Failed(ValueError);
      }
      attributes := attributes[id := value.value];
      idOffset := expectedSize;
      consumed := idOffset;
    }
    return Parsed(ScheduleEvent(ts, attributes), consumed);
  }

  // ---------------------------------------------------------------------
  // Properties of the decoder.

  /** The tuple reader ends only at the end of the buffer, never drops an
      attribute it has read, and throws only its three tuple errors. */
  lemma {:induction false} ParseTuplesShape(bytes: seq<byte>, offset: nat, ts: TimeSpec,
                                            read: map<AttributeId, AttributeValue>,
                                            types: map<int, DataType>, codec: ValueCodec)
    requires offset <= |bytes|
    ensures var r := ParseTuples(bytes, offset, ts, read, types, codec);
      && (r.Parsed? ==> r.consumed == |bytes| && r.event.ts == ts && read.Keys <= r.event.attributes.Keys)
      && (r.Parsed? && offset < |bytes| ==> |r.event.attributes| >= 1)
      && (r.Failed? ==> r.code in {UnknownIdError, VariableSizeError, ValueError})
    decreases |bytes| - offset
  {
    if offset < |bytes| && |bytes| - offset >= 2 {
      var id := ReadLittleEndian16(bytes[offset], bytes[offset + 1]);
      if id in types && FixedSize(types[id]).Some? {
        var expected := offset + 2 + FixedSize(types[id]).value;
        if |bytes| >= expected {
          match codec.decode(types[id], bytes[offset + 2..expected])
          case None =>
          case Some(v) =>
            ParseTuplesShape(bytes, expected, ts, read[id := v], types, codec);
            var r := ParseTuples(bytes, offset, ts, read, types, codec);
            assert r.Parsed? ==> id in r.event.attributes;
        }
      }
    }
  }

  /** The outcomes of `FromBytes`: a parsed event consumed the whole buffer
      and has at least one attribute; short buffers (the one-byte `[0x00]`
      empty-slot sentinel included) are incomplete rather than errors; and
      the thrown codes are exactly the four documented ones. For the first
      tuple: an id without a type throws -1007, a type without a fixed size
      throws -1008, a value running past the end of the buffer is an
      incomplete chunk, and a value the codec refuses throws -1011. */
  lemma ParseEventOutcomes(bytes: seq<byte>, types: map<int, DataType>, codec: ValueCodec)
    ensures var r := ParseEvent(bytes, types, codec);
      && (r.Parsed? ==> r.consumed == |bytes| && |r.event.attributes| >= 1)
      && (|bytes| < MinSize ==> r == Incomplete)
      && (|bytes| >= MinSize && Decode(bytes[..SerializedSize]).None? ==> r == Failed(TimeSpecError))
      && (r.Failed? ==> r.code in {TimeSpecError, UnknownIdError, VariableSizeError, ValueError})
    ensures |bytes| >= MinSize && Decode(bytes[..SerializedSize]).Some? ==>
      var r := ParseEvent(bytes, types, codec);
      var id := ReadLittleEndian16(bytes[SerializedSize], bytes[SerializedSize + 1]);
      && (id !in types ==> r == Failed(UnknownIdError))
      && (id in types && FixedSize(types[id]).None? ==> r == Failed(VariableSizeError))
      && (id in types && FixedSize(types[id]).Some? ==>
            var end := SerializedSize + 2 + FixedSize(types[id]).value;
            && (|bytes| < end ==> r == Incomplete)
            && (end <= |bytes| && codec.decode(types[id], bytes[SerializedSize + 2..end]).None? ==>
                  r == Failed(ValueError)))
  {
    if |bytes| >= MinSize && Decode(bytes[..SerializedSize]).Some? {
      ParseTuplesShape(bytes, SerializedSize, Decode(bytes[..SerializedSize]).value, map[], types, codec);
    }
  }

  /** A buffer holding one complete tuple and exactly one more byte makes the
      id read slice past the end: `FromBytes` traps instead of answering
      "incomplete". */
  lemma TrailingByteTraps(codec: ValueCodec)
    requires codec.decode(Boolean, [1]) == Some(AttributeValue(Boolean, [1]))
    ensures ParseEvent([0, 2, 14, 30, 100, 0, 1, 0], map[100 := Boolean], codec) == Trapped
  {
    var bytes: seq<byte> := [0, 2, 14, 30, 100, 0, 1, 0];
    assert bytes[..SerializedSize] == [0, 2, 14, 30];
    var ts := Decode(bytes[..SerializedSize]).value;
    assert bytes[6..7] == [1];
    assert ReadLittleEndian16(bytes[4], bytes[5]) == 100;
    assert ParseTuples(bytes, 4, ts, map[], map[100 := Boolean], codec)
        == ParseTuples(bytes, 7, ts, map[100 := AttributeValue(Boolean, [1])], map[100 := Boolean], codec);
  }

  // ---------------------------------------------------------------------
  // Round trip.

  /** The attributes of `attributes` listed in `ids`. */
  function Restrict(ids: seq<int>, attributes: map<AttributeId, AttributeValue>): map<AttributeId, AttributeValue>
  {
    map id | id in attributes && id in ids :: attributes[id]
  }

  /** An event's attribute types agree with `types` and its values are all
      of fixed width. */
  predicate Decodable(e: ScheduleEvent, types: map<int, DataType>)
  {
    forall id :: id in e.attributes ==>
      id in types && types[id] == e.attributes[id].dataType && FixedWidth(e.attributes[id])
  }

  lemma RestrictCons(id: AttributeId, ids: seq<int>, read: map<AttributeId, AttributeValue>,
                     attributes: map<AttributeId, AttributeValue>)
    requires |ids| > 0 && ids[0] == id && id in attributes
    ensures read[id := attributes[id]] + Restrict(ids[1..], attributes)
         == read + Restrict(ids, attributes)
  {
    var lhs := read[id := attributes[id]] + Restrict(ids[1..], attributes);
    var rhs := read + Restrict(ids, attributes);
    forall k | k in ids[1..]
      ensures k in ids
    {
    }
    assert lhs.Keys == rhs.Keys;
    forall k | k in lhs.Keys
      ensures lhs[k] == rhs[k]
    {
    }
  }

  /** One encoded tuple at `offset`: its id bytes, then its value bytes. */
  lemma TupleAt(bytes: seq<byte>, offset: nat, ids: seq<int>, attributes: map<AttributeId, AttributeValue>)
    requires forall i :: 0 <= i < |ids| ==> ids[i] in attributes
    requires |ids| > 0
    requires offset <= |bytes| && bytes[offset..] == Tuples(ids, attributes)
    ensures var id: AttributeId := ids[0];
      var p := attributes[id].payload;
      && offset + 2 + |p| <= |bytes|
      && ReadLittleEndian16(bytes[offset], bytes[offset + 1]) == id
      && bytes[offset + 2..offset + 2 + |p|] == p
      && bytes[offset + 2 + |p|..] == Tuples(ids[1..], attributes)
  {
    var id: AttributeId := ids[0];
    var p := attributes[id].payload;
    var rest := Tuples(ids[1..], attributes);
    assert bytes[offset..] == LittleEndian16(id) + p + rest;
    assert bytes[offset] == LittleEndian16(id)[0];
    assert bytes[offset + 1] == LittleEndian16(id)[1];
    LittleEndianRoundTrip(id);
    assert bytes[offset + 2..offset + 2 + |p|] == (LittleEndian16(id) + p + rest)[2..2 + |p|];
    assert bytes[offset + 2 + |p|..] == (LittleEndian16(id) + p + rest)[2 + |p|..];
  }

  /** One well-formed tuple is read and the loop moves past it. */
  lemma ParseStep(bytes: seq<byte>, offset: nat, next: nat, ts: TimeSpec, read: map<AttributeId, AttributeValue>,
                  types: map<int, DataType>, codec: ValueCodec, id: AttributeId, v: AttributeValue)
    requires Lawful(codec) && FixedWidth(v)
    requires next == offset + 2 + |v.payload| <= |bytes|
    requires ReadLittleEndian16(bytes[offset], bytes[offset + 1]) == id
    requires id in types && types[id] == v.dataType
    requires bytes[offset + 2..next] == v.payload
    ensures ParseTuples(bytes, offset, ts, read, types, codec) == ParseTuples(bytes, next, ts, read[id := v], types, codec)
  {
    assert codec.decode(v.dataType, v.payload) == Some(v);
  }

  lemma {:induction false} TuplesRoundTrip(bytes: seq<byte>, offset: nat, ids: seq<int>, ts: TimeSpec,
                                           read: map<AttributeId, AttributeValue>, e: ScheduleEvent,
                                           types: map<int, DataType>, codec: ValueCodec)
    requires Lawful(codec) && Decodable(e, types)
    requires forall i :: 0 <= i < |ids| ==> ids[i] in e.attributes
    requires offset <= |bytes| && bytes[offset..] == Tuples(ids, e.attributes)
    ensures ParseTuples(bytes, offset, ts, read, types, codec)
         == Parsed(ScheduleEvent(ts, read + Restrict(ids, e.attributes)), |bytes|)
    decreases |ids|
  {
    var attrs := e.attributes;
    if ids == [] {
      assert |bytes[offset..]| == 0;
      assert Restrict(ids, attrs) == map[];
      assert read + map[] == read;
    } else {
      var id: AttributeId := ids[0];
      var v := attrs[id];
      TupleAt(bytes, offset, ids, attrs);
      assert id in types && types[id] == v.dataType && FixedWidth(v);
      var next := offset + 2 + |v.payload|;
      var read' := read[id := v];
      ParseStep(bytes, offset, next, ts, read, types, codec, id, v);
      TuplesRoundTrip(bytes, next, ids[1..], ts, read', e, types, codec);
      RestrictCons(id, ids, read, attrs);
    }
  }

  /** Decoding `serialized.bytes` with a type map that agrees with the
      event, under the assumed value round trip, gives back the attributes
      unchanged and a time spec equal under `==`, consuming every byte. */
  lemma SerializeRoundTrip(e: ScheduleEvent, types: map<int, DataType>, codec: ValueCodec)
    requires Lawful(codec) && Decodable(e, types)
    requires e.ts.hour <= 23 && e.ts.minute <= 59
    requires e.attributes != map[]
    ensures var r := ParseEvent(SerializedBytes(e), types, codec);
      && r.Parsed?
      && r.consumed == |SerializedBytes(e)|
      && r.event.attributes == e.attributes
      && Same(r.event.ts, e.ts)
  {
    SortedIdsSpec(e.attributes);
    var ids := SortedIds(e.attributes);
    var bytes := SerializedBytes(e);
    RoundTrip(e.ts);
    var ts := Decode(Encode(e.ts)).value;
    assert |ids| > 0;
    assert |bytes| >= MinSize by {
      var p := e.attributes[ids[0]].payload;
      assert FixedWidth(e.attributes[ids[0]]);
      assert |Tuples(ids, e.attributes)| == 2 + |p| + |Tuples(ids[1..], e.attributes)|;
    }
    assert bytes[..SerializedSize] == Encode(e.ts);
    assert bytes[SerializedSize..] == Tuples(ids, e.attributes);
    TuplesRoundTrip(bytes, SerializedSize, ids, ts, map[], e, types, codec);
    RestrictAll(ids, e.attributes);
  }

  /** A parse of a prefix of `e`'s encoding that throws nothing and reads
      only attributes of `e`. */
  predicate Tolerated(r: ParseOutcome, e: ScheduleEvent)
  {
    && !r.Failed?
    && (r.Parsed? ==> forall id :: id in r.event.attributes ==>
                        id in e.attributes && r.event.attributes[id] == e.attributes[id])
  }

  /** With fewer than two bytes left the tuple loop stops: it has parsed
      the buffer, or it slices past the end for the next id. */
  lemma CutAtEnd(bytes: seq<byte>, offset: nat, ts: TimeSpec, read: map<AttributeId, AttributeValue>,
                 e: ScheduleEvent, types: map<int, DataType>, codec: ValueCodec)
    requires offset <= |bytes| < offset + 2
    requires forall id :: id in read ==> id in e.attributes && read[id] == e.attributes[id]
    ensures ParseTuples(bytes, offset, ts, read, types, codec)
         == if offset == |bytes| then Parsed(ScheduleEvent(ts, read), offset) else Trapped
    ensures Tolerated(ParseTuples(bytes, offset, ts, read, types, codec), e)
  {
  }

  /** The bytes from `offset` on hold, tuple by tuple, the id of each of
      `ids` and then its value. */
  ghost predicate Layout(bytes: seq<byte>, offset: nat, ids: seq<int>, attributes: map<AttributeId, AttributeValue>)
    decreases |ids|
  {
    if ids == [] then offset == |bytes|
    else
      && 0 <= ids[0] < 0x1_0000
      && var id: AttributeId := ids[0];
      && id in attributes
      && var next := offset + 2 + |attributes[id].payload|;
      && next <= |bytes|
      && ReadLittleEndian16(bytes[offset], bytes[offset + 1]) == id
      && bytes[offset + 2..next] == attributes[id].payload
      && Layout(bytes, next, ids[1..], attributes)
  }

  lemma {:induction false} TuplesLayout(bytes: seq<byte>, offset: nat, ids: seq<int>,
                                        attributes: map<AttributeId, AttributeValue>)
    requires forall i :: 0 <= i < |ids| ==> ids[i] in attributes
    requires offset <= |bytes| && bytes[offset..] == Tuples(ids, attributes)
    ensures Layout(bytes, offset, ids, attributes)
    decreases |ids|
  {
    if ids == [] {
      assert |bytes[offset..]| == 0;
    } else {
      var id: AttributeId := ids[0];
      var next := offset + 2 + |attributes[id].payload|;
      TupleAt(bytes, offset, ids, attributes);
      assert Layout(bytes, next, ids[1..], attributes) by {
        assert forall i :: 0 <= i < |ids[1..]| ==> ids[1..][i] == ids[i + 1];
        TuplesLayout(bytes, next, ids[1..], attributes);
      }
    }
  }

  /** The tuple loop at `offset` over `bytes` cut at `n`, where the bytes
      from `offset` on lay out the attributes `ids` of `e` and everything
      read so far belongs to `e`. */
  ghost predicate CutState(bytes: seq<byte>, offset: nat, n: nat, ids: seq<int>,
                           read: map<AttributeId, AttributeValue>, e: ScheduleEvent,
                           types: map<int, DataType>, codec: ValueCodec)
  {
    && Lawful(codec) && Decodable(e, types)
    && offset <= n <= |bytes| && Layout(bytes, offset, ids, e.attributes)
    && (forall id :: id in read ==> id in e.attributes && read[id] == e.attributes[id])
  }

  /** One laid-out tuple, with the buffer cut at `n` past its id: a cut
      inside the value is an incomplete chunk, and otherwise the tuple is
      read and the loop moves past it. */
  lemma CutTuple(bytes: seq<byte>, offset: nat, n: nat, ids: seq<int>, ts: TimeSpec,
                 read: map<AttributeId, AttributeValue>, e: ScheduleEvent,
                 types: map<int, DataType>, codec: ValueCodec)
    requires CutState(bytes, offset, n, ids, read, e, types, codec)
    requires |ids| > 0 && offset + 2 <= n
    ensures 0 <= ids[0] < 0x1_0000 && ids[0] in e.attributes
    ensures var id: AttributeId := ids[0];
      var v := e.attributes[id];
      var next := offset + 2 + |v.payload|;
      && (n < next ==> ParseTuples(bytes[..n], offset, ts, read, types, codec) == Incomplete)
      && (next <= n ==>
            && CutState(bytes, next, n, ids[1..], read[id := v], e, types, codec)
            && ParseTuples(bytes[..n], offset, ts, read, types, codec)
               == ParseTuples(bytes[..n], next, ts, read[id := v], types, codec))
  {
    var cut := bytes[..n];
    var id: AttributeId := ids[0];
    var v := e.attributes[id];
    assert cut[offset] == bytes[offset] && cut[offset + 1] == bytes[offset + 1];
    assert id in types && types[id] == v.dataType && FixedWidth(v);
    var next := offset + 2 + |v.payload|;
    if next <= n {
      assert cut[offset + 2..next] == bytes[offset + 2..next];
      ParseStep(cut, offset, next, ts, read, types, codec, id, v);
    }
  }

  /** A prefix of the encoded tuples, cut anywhere, reads back without an
      error: the tuples before the cut are parsed, and the cut tuple gives
      "incomplete" (or traps, when the cut leaves one id byte). */
  lemma {:induction false} TruncatedTuples(bytes: seq<byte>, offset: nat, n: nat, ids: seq<int>, ts: TimeSpec,
                                           read: map<AttributeId, AttributeValue>, e: ScheduleEvent,
                                           types: map<int, DataType>, codec: ValueCodec)
    requires CutState(bytes, offset, n, ids, read, e, types, codec)
    ensures Tolerated(ParseTuples(bytes[..n], offset, ts, read, types, codec), e)
    decreases |ids|
  {
    if n - offset < 2 {
      CutAtEnd(bytes[..n], offset, ts, read, e, types, codec);
    } else {
      CutTuple(bytes, offset, n, ids, ts, read, e, types, codec);
      var id: AttributeId := ids[0];
      var v := e.attributes[id];
      if offset + 2 + |v.payload| <= n {
        TruncatedTuples(bytes, offset + 2 + |v.payload|, n, ids[1..], ts, read[id := v], e, types, codec);
      }
    }
  }

  /** `FromBytes` on a truncated serialization never throws: every prefix of
      `serialized.bytes` is incomplete, traps on a half id, or parses into
      some of the event's attributes with an `==` time spec. */
  lemma TruncatedSerialization(e: ScheduleEvent, types: map<int, DataType>, codec: ValueCodec, n: nat)
    requires Lawful(codec) && Decodable(e, types)
    requires e.ts.hour <= 23 && e.ts.minute <= 59
    requires n <= |SerializedBytes(e)|
    ensures var r := ParseEvent(SerializedBytes(e)[..n], types, codec);
      && (r.Parsed? || r == Incomplete || r == Trapped)
      && (r.Parsed? ==> Same(r.event.ts, e.ts))
      && (r.Parsed? ==> forall id :: id in r.event.attributes ==>
                          id in e.attributes && r.event.attributes[id] == e.attributes[id])
  {
    var bytes := SerializedBytes(e);
    if n >= MinSize {
      var cut := bytes[..n];
      RoundTrip(e.ts);
      var ts := Decode(Encode(e.ts)).value;
      assert ParseEvent(cut, types, codec) == ParseTuples(cut, SerializedSize, ts, map[], types, codec) by {
        assert cut[..SerializedSize] == Encode(e.ts);
      }
      assert Tolerated(ParseTuples(cut, SerializedSize, ts, map[], types, codec), e) by {
        SortedIdsSpec(e.attributes);
        var ids := SortedIds(e.attributes);
        assert bytes[SerializedSize..] == Tuples(ids, e.attributes);
        TuplesLayout(bytes, SerializedSize, ids, e.attributes);
        TruncatedTuples(bytes, SerializedSize, n, ids, ts, map[], e, types, codec);
      }
      ParseTuplesShape(cut, SerializedSize, ts, map[], types, codec);
    }
  }

  lemma RestrictAll(ids: seq<int>, attributes: map<AttributeId, AttributeValue>)
    requires forall id :: id in attributes ==> id in ids
    ensures map[] + Restrict(ids, attributes) == attributes
  {
    var r := map[] + Restrict(ids, attributes);
    assert r.Keys == attributes.Keys;
    forall k | k in r.Keys
      ensures r[k] == attributes[k]
    {
    }
  }

  /** An event with no attributes serializes to its 4 time-spec bytes, which
      are too short to parse: it reads back as "incomplete". */
  lemma SerializeEmpty(e: ScheduleEvent, types: map<int, DataType>, codec: ValueCodec)
    requires e.attributes == map[]
    ensures SerializedBytes(e) == Encode(e.ts)
    ensures ParseEvent(SerializedBytes(e), types, codec) == Incomplete
  {
    SortedIdsSpec(e.attributes);
    assert SortedIds(e.attributes) == [];
  }

  /** The encoding of a single-attribute event: a Monday 14:30 repeating,
      device-local event writing boolean `true` to attribute 100. */
  lemma SerializeExample()
    ensures SerializedBytes(ScheduleEvent(SingleDay(2, 14, 30, true, true), map[100 := AttributeValue(Boolean, [1])]))
         == [0x03, 0x02, 14, 30, 0x64, 0x00, 0x01]
  {
    var attrs := map[100 := AttributeValue(Boolean, [1])];
    ExampleIds(attrs);
    ExampleTimeSpec();
    ExampleTuples(attrs);
  }

  lemma ExampleIds(attrs: map<AttributeId, AttributeValue>)
    requires attrs.Keys == {100}
    ensures SortedIds(attrs) == [100]
  {
    SortedIdsSpec(attrs);
    assert |SortedIds(attrs)| == 1;
    assert 100 in SortedIds(attrs);
  }

  lemma ExampleTimeSpec()
    ensures Encode(SingleDay(2, 14, 30, true, true)) == [0x03, 0x02, 14, 30]
  {
    var ts := SingleDay(2, 14, 30, true, true);
    DayOfSpec(ts);
    assert DayOf(ts) == 2;
  }

  lemma ExampleTuples(attrs: map<AttributeId, AttributeValue>)
    requires attrs == map[100 := AttributeValue(Boolean, [1])]
    ensures Tuples([100], attrs) == [0x64, 0x00, 0x01]
  {
    assert LittleEndian16(100) == [0x64, 0x00];
  }
}
