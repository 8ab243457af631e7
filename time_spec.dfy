/** The time specification of an offline-schedule event and its 4-byte
    codec: `[flags][day byte][hour][minute]`. The day byte is either a single
    day number (1 = Sunday ... 7 = Saturday) or, when its 0x80 bit is set,
    a compact bit set with one bit per day. */
module TimeSpecs {
  import opened Common

  /** A day of the week by its day number: Sunday = 1 through Saturday = 7. */
  type DayOfWeek = d: int | 1 <= d <= 7 witness 1

  const Sunday: DayOfWeek := 1

  /** `DayOfWeek.allDays`. */
  const AllDays: set<DayOfWeek> := {1, 2, 3, 4, 5, 6, 7}

  // TimeSpecification.Flags: bit 0 = repeats, bit 1 = usesDeviceTimeZone.
  const RepeatsFlag: byte := 0x01
  const UsesDeviceTimeZoneFlag: byte := 0x02

  /** Marker bit of the compact day representation. */
  const CompactFlag: byte := 0x80

  /** Size of the encoded time specification. */
  const SerializedSize: nat := 4

  /** The time at which an event fires. `useCompact` is the representation
      hint: it selects the compact day byte when encoding. */
  datatype TimeSpec = TimeSpec(
    days: set<DayOfWeek>,
    useCompact: bool,
    hour: byte,
    minute: byte,
    flags: byte)

  predicate HasFlag(flags: byte, bit: byte)
  {
    flags & bit == bit
  }

  /** Set or clear one option bit (OptionSet insert / remove). */
  function WithFlag(flags: byte, bit: byte, on: bool): (r: byte)
    ensures on ==> HasFlag(r, bit)
    ensures !on && (bit == RepeatsFlag || bit == UsesDeviceTimeZoneFlag) ==> !HasFlag(r, bit)
    ensures !on ==> r & bit == 0
    ensures r & !bit == flags & !bit
  {
    if on then flags | bit else flags & !bit
  }

  predicate Repeats(ts: TimeSpec)
  {
    HasFlag(ts.flags, RepeatsFlag)
  }

  predicate UsesDeviceTimeZone(ts: TimeSpec)
  {
    HasFlag(ts.flags, UsesDeviceTimeZoneFlag)
  }

  /** `init(daysOfWeek:hour:minute:flags:useCompactDayRepresentation:)`:
      more than one day always selects the compact representation. */
  function MakeTimeSpec(days: set<DayOfWeek>, hour: byte, minute: byte, flags: byte, useCompact: bool): (r: TimeSpec)
    ensures r.days == days && r.hour == hour && r.minute == minute && r.flags == flags
    ensures r.useCompact <==> useCompact || |days| > 1
  {
    TimeSpec(days, useCompact || |days| > 1, hour, minute, flags)
  }

  /** `init(dayOfWeek:hour:minute:repeats:usesDeviceTimeZone:)`. */
  function SingleDay(day: DayOfWeek, hour: byte, minute: byte, repeats: bool, deviceTimeZone: bool): (r: TimeSpec)
    ensures r.days == {day} && !r.useCompact
    ensures r.hour == hour && r.minute == minute
    ensures Repeats(r) == repeats && UsesDeviceTimeZone(r) == deviceTimeZone
    ensures r.flags & !(RepeatsFlag | UsesDeviceTimeZoneFlag) == 0
  {
    var f0: byte := 0;
    var f1 := if repeats then f0 | RepeatsFlag else f0;
    var f2 := if deviceTimeZone then f1 | UsesDeviceTimeZoneFlag else f1;
    MakeTimeSpec({day}, hour, minute, f2, false)
  }

  // ---------------------------------------------------------------------
  // The one day that `==`, `<` and the single-day encoding look at.

  function FirstFrom(days: set<DayOfWeek>, d: int): DayOfWeek
    requires 1 <= d <= 8
    decreases 8 - d
  {
    if d == 8 then Sunday
    else if d in days then d
    else FirstFrom(days, d + 1)
  }

  /** `dayOfWeek`: `daysOfWeek.first ?? .sunday`. Swift leaves the order of
      `Set.first` unspecified; this model fixes it to the least day. */
  function DayOf(ts: TimeSpec): DayOfWeek
  {
    FirstFrom(ts.days, 1)
  }

  lemma {:induction false} FirstFromSpec(days: set<DayOfWeek>, d: int)
    requires 1 <= d <= 8
    ensures (exists x :: x in days && d <= x) ==>
              FirstFrom(days, d) in days && forall x :: x in days && d <= x ==> FirstFrom(days, d) <= x
    ensures (forall x :: x in days ==> x < d) ==> FirstFrom(days, d) == Sunday
    decreases 8 - d
  {
    if d < 8 {
      FirstFromSpec(days, d + 1);
    }
  }

  /** The day `==` and `<` compare is the least day of the set, or Sunday
      for the empty set. */
  lemma DayOfSpec(ts: TimeSpec)
    ensures ts.days == {} ==> DayOf(ts) == Sunday
    ensures ts.days != {} ==> DayOf(ts) in ts.days && forall x :: x in ts.days ==> DayOf(ts) <= x
  {
    FirstFromSpec(ts.days, 1);
  }

  // ---------------------------------------------------------------------
  // Compact day byte.

  /** The bit of `day` in the compact byte, `2 << (6 - dayNumber)`, listed
      day by day: Sunday 0x40 down to Saturday 0x01. */
  function DayBit(day: DayOfWeek): byte
  {
    match day
    case 1 => 0x40
    case 2 => 0x20
    case 3 => 0x10
    case 4 => 0x08
    case 5 => 0x04
    case 6 => 0x02
    case 7 => 0x01
  }

  /** The table is the shift the source computes. For Saturday the shift
      amount is -1, which Swift's smart shift turns into a right shift by
      one, giving 1; so the bit index is `7 - dayNumber` for every day, and
      the compact marker is never a day's bit. */
  lemma DayBitIndex(day: DayOfWeek)
    ensures day < 7 ==> DayBit(day) == (2 as byte) << (6 - day)
    ensures day == 7 ==> DayBit(day) == (2 as byte) >> 1
    ensures DayBit(day) == (1 as byte) << (7 - day)
    ensures DayBit(day) & CompactFlag == 0
  {
  }

  /** OR of the bits of the days of `days` numbered `from` and above. The
      source folds `|` over the set; `|` is commutative and idempotent, so
      folding in day order gives the same byte. */
  function BitsFrom(days: set<DayOfWeek>, from: int): byte
    requires 1 <= from <= 8
    decreases 8 - from
  {
    if from == 8 then 0
    else (if from in days then DayBit(from) else 0) | BitsFrom(days, from + 1)
  }

  /** `daysToByte`: the compact marker plus one bit per day. */
  function DaysToByte(days: set<DayOfWeek>): (b: byte)
    ensures b & CompactFlag != 0
  {
    CompactFlag | BitsFrom(days, 1)
  }

  /** The days whose bit is set in `b` (ignoring the marker bit). */
  function DaysOfByte(b: byte): set<DayOfWeek>
  {
    set d: DayOfWeek | 1 <= d <= 7 && b & DayBit(d) != 0
  }

  /** `byteToDays`: `nil` unless the compact marker is set; otherwise the
      days whose bit is set, collected by a loop over all seven days. */
  method ByteToDays(b: byte) returns (r: Option<set<DayOfWeek>>)
    ensures r.None? <==> b & CompactFlag == 0
    ensures r.Some? ==> r.value == DaysOfByte(b)
  {
    if b & CompactFlag == 0 {
      return None;
    }
    var daySet: set<DayOfWeek> := {};
    for d := 1 to 8
      invariant daySet == set x: DayOfWeek | 1 <= x < d && b & DayBit(x) != 0
    {
      if b & DayBit(d) != 0 {
        daySet := daySet + {d};
      }
    }
    return Some(daySet);
  }

  /** Two distinct days never share a bit. */
  lemma DayBitsDisjoint(d: DayOfWeek, e: DayOfWeek)
    ensures DayBit(d) & DayBit(e) != 0 <==> d == e
  {
  }

  lemma {:induction false} BitsFromAt(days: set<DayOfWeek>, from: int, d: DayOfWeek)
    requires 1 <= from <= 8
    ensures BitsFrom(days, from) & DayBit(d) != 0 <==> from <= d && d in days
    decreases 8 - from
  {
    if from < 8 {
      BitsFromAt(days, from + 1, d);
      DayBitsDisjoint(from, d);
      var c: byte := if from in days then DayBit(from) else 0;
      OrMask(c, BitsFrom(days, from + 1), DayBit(d));
    }
  }

  lemma OrMask(c: byte, rest: byte, m: byte)
    ensures (c | rest) & m != 0 <==> c & m != 0 || rest & m != 0
  {
  }

  /** Encoding a day set in compact form and reading it back gives the same
      set: `byteToDays(daysToByte(s)) == s`. */
  lemma DaysRoundTrip(days: set<DayOfWeek>)
    ensures DaysOfByte(DaysToByte(days)) == days
  {
    forall d: DayOfWeek
      ensures d in DaysOfByte(DaysToByte(days)) <==> d in days
    {
      BitsFromAt(days, 1, d);
      DayBitIndex(d);
      assert DaysToByte(days) & DayBit(d) == (CompactFlag & DayBit(d)) | (BitsFrom(days, 1) & DayBit(d));
    }
  }

  // ---------------------------------------------------------------------
  // 4-byte codec.

  /** The day byte: compact form when the representation hint says so,
      otherwise the day number of `dayOfWeek`. */
  function DayByte(ts: TimeSpec): (b: byte)
    ensures b & CompactFlag != 0 <==> ts.useCompact
  {
    if ts.useCompact then DaysToByte(ts.days) else DayOf(ts) as byte
  }

  /** `TimeSpecification.bytes`: exactly `[flags, dayByte, hour, minute]`. */
  function Encode(ts: TimeSpec): (r: seq<byte>)
    ensures |r| == SerializedSize
  {
    [ts.flags, DayByte(ts), ts.hour, ts.minute]
  }

  /** `init?(bytes:)`: `None` for fewer than four bytes, a non-compact day
      byte that is not a day number, an hour above 23 or a minute above 59.
      A compact day byte always decodes. The result always carries the
      compact hint, because both day setters route through `daysOfWeek`. */
  function Decode(bytes: seq<byte>): (r: Option<TimeSpec>)
    ensures r.None? <==>
      || |bytes| < SerializedSize
      || (bytes[1] & CompactFlag == 0 && !(1 <= bytes[1] as int <= 7))
      || bytes[2] > 23
      || bytes[3] > 59
    ensures r.Some? ==>
      && r.value.useCompact
      && r.value.flags == bytes[0] && r.value.hour == bytes[2] && r.value.minute == bytes[3]
      && (bytes[1] & CompactFlag != 0 ==> r.value.days == DaysOfByte(bytes[1]))
      && (bytes[1] & CompactFlag == 0 ==> r.value.days == {bytes[1] as int})
  {
    if |bytes| < SerializedSize then None
    else
      var dayInt := bytes[1];
      var days: Option<set<DayOfWeek>> :=
        if dayInt & CompactFlag != 0 then Some(DaysOfByte(dayInt))
        else if 1 <= dayInt as int <= 7 then Some({dayInt as int})
        else None;
      if days.None? then None
      else if bytes[2] > 23 then None
      else if bytes[3] > 59 then None
      else Some(TimeSpec(days.value, true, bytes[2], bytes[3], bytes[0]))
  }

  // ---------------------------------------------------------------------
  // Equality and order.

  /** The fields that `==`, `hash` and `<` look at. */
  datatype SortKey = SortKey(day: int, hour: byte, minute: byte, flags: byte)

  function KeyOf(ts: TimeSpec): SortKey
  {
    SortKey(DayOf(ts), ts.hour, ts.minute, ts.flags)
  }

  predicate KeyLess(a: SortKey, b: SortKey)
  {
    LexLess(a.day, a.hour, a.minute, a.flags, b.day, b.hour, b.minute, b.flags)
  }

  /** Lexicographic `<` on (day, hour, minute, flags), field by field. */
  predicate LexLess(ad: int, ah: byte, am: byte, af: byte, bd: int, bh: byte, bm: byte, bf: byte)
  {
    || ad < bd
    || (ad == bd &&
         (|| ah < bh
          || (ah == bh &&
               (|| am < bm
                || (am == bm && af < bf)))))
  }

  /** `==`: only `dayOfWeek`, hour, minute and flags; the representation
      hint and the rest of the day set are ignored. */
  predicate Same(a: TimeSpec, b: TimeSpec)
  {
    KeyOf(a) == KeyOf(b)
  }

  /** `<`: lexicographic on (dayOfWeek, hour, minute, raw flags). */
  predicate Less(a: TimeSpec, b: TimeSpec)
  {
    KeyLess(KeyOf(a), KeyOf(b))
  }

  lemma KeyTotal(a: SortKey, b: SortKey)
    ensures KeyLess(a, b) || KeyLess(b, a) || a == b
    ensures !(KeyLess(a, b) && KeyLess(b, a))
    ensures !KeyLess(a, a)
  {
  }

  lemma LexTransitive(ad: int, ah: byte, am: byte, af: byte, bd: int, bh: byte, bm: byte, bf: byte,
                      cd: int, ch: byte, cm: byte, cf: byte)
    requires LexLess(ad, ah, am, af, bd, bh, bm, bf) && LexLess(bd, bh, bm, bf, cd, ch, cm, cf)
    ensures LexLess(ad, ah, am, af, cd, ch, cm, cf)
  {
  }

  lemma KeyTransitive(a: SortKey, b: SortKey, c: SortKey)
    requires KeyLess(a, b) && KeyLess(b, c)
    ensures KeyLess(a, c)
  {
    LexTransitive(a.day, a.hour, a.minute, a.flags, b.day, b.hour, b.minute, b.flags, c.day, c.hour, c.minute, c.flags);
  }

  lemma KeyNotLessTransitive(a: SortKey, b: SortKey, c: SortKey)
    requires !KeyLess(a, b) && !KeyLess(b, c)
    ensures !KeyLess(a, c)
  {
  }

  /** `<` is a strict order whose incomparable pairs are exactly the pairs
      equal under `==`: for any two specs exactly one of `a < b`, `b < a`,
      `a == b` holds. */
  lemma Trichotomy(a: TimeSpec, b: TimeSpec)
    ensures Less(a, b) || Less(b, a) || Same(a, b)
    ensures !(Less(a, b) && Less(b, a))
    ensures !(Less(a, b) && Same(a, b))
  {
    KeyTotal(KeyOf(a), KeyOf(b));
  }

  lemma LessTransitive(a: TimeSpec, b: TimeSpec, c: TimeSpec)
    requires Less(a, b) && Less(b, c)
    ensures Less(a, c)
  {
    KeyTransitive(KeyOf(a), KeyOf(b), KeyOf(c));
  }

  /** Incomparability is transitive: `!(a < b)` and `!(b < c)` give
      `!(a < c)`. */
  lemma NotLessTransitiveSpec(a: TimeSpec, b: TimeSpec, c: TimeSpec)
    requires !Less(a, b) && !Less(b, c)
    ensures !Less(a, c)
  {
    KeyNotLessTransitive(KeyOf(a), KeyOf(b), KeyOf(c));
  }

  lemma LessIrreflexive(a: TimeSpec)
    ensures !Less(a, a) && Same(a, a)
  {
    KeyTotal(KeyOf(a), KeyOf(a));
  }

  // ---------------------------------------------------------------------
  // Round trips.

  /** For an in-range hour and minute, decoding `bytes` succeeds and yields a
      spec equal under `==`. The decoded spec is compact; it keeps the whole
      day set when the original was compact, and the single `dayOfWeek`
      otherwise. */
  lemma RoundTrip(ts: TimeSpec)
    requires ts.hour <= 23 && ts.minute <= 59
    ensures Decode(Encode(ts)).Some?
    ensures Same(Decode(Encode(ts)).value, ts)
    ensures Decode(Encode(ts)).value.useCompact
    ensures ts.useCompact ==> Decode(Encode(ts)).value.days == ts.days
    ensures !ts.useCompact ==> Decode(Encode(ts)).value.days == {DayOf(ts)}
  {
    var b := Encode(ts);
    var r := Decode(b).value;
    if ts.useCompact {
      DaysRoundTrip(ts.days);
      assert r.days == ts.days;
    } else {
      assert r.days == {DayOf(ts)};
      DayOfSpec(r);
    }
  }

  /** Re-encoding a decoded single-day spec emits the compact day byte, not
      the day number it was read from. */
  lemma ReencodeSingleDayIsCompact(ts: TimeSpec)
    requires ts.hour <= 23 && ts.minute <= 59 && !ts.useCompact
    ensures Encode(Decode(Encode(ts)).value)[1] == CompactFlag | DayBit(DayOf(ts))
    ensures Encode(Decode(Encode(ts)).value)[1] != Encode(ts)[1]
  {
    RoundTrip(ts);
    var d := DayOf(ts);
    var r := Decode(Encode(ts)).value;
    assert r.days == {d};
    BitsFromAt({d}, 1, d);
    SingletonBits(d, 1);
  }

  lemma {:induction false} SingletonBits(d: DayOfWeek, from: int)
    requires 1 <= from <= d
    ensures BitsFrom({d}, from) == DayBit(d)
    decreases 8 - from
  {
    if from < d {
      SingletonBits(d, from + 1);
    } else {
      assert BitsFrom({d}, d + 1) == 0 by { NoBitsAbove(d, d + 1); }
    }
  }

  lemma {:induction false} NoBitsAbove(d: DayOfWeek, from: int)
    requires d < from <= 8
    ensures BitsFrom({d}, from) == 0
    decreases 8 - from
  {
    if from < 8 {
      NoBitsAbove(d, from + 1);
    }
  }
}
