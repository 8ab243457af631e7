/** The slot table of an offline schedule — event attribute id to event — and
    everything computed from it without changing it: slot allocation, the
    values written on commit, the value read back from storage, the event
    queries, and the per-event UTC migration step. */
module ScheduleTables {
  import opened Common
  import opened TimeSpecs
  import opened Attributes
  import opened ScheduleEvents
  import opened Collation

  /** `attributeIdEventMap`. */
  type Table = map<int, ScheduleEvent>

  /** Every key is an event attribute id. */
  predicate WellFormed(table: Table)
  {
    forall id :: id in table ==> IsEventAttributeId(id)
  }

  // ---------------------------------------------------------------------
  // Slots.

  /** `attributeIds`: the writable event attribute ids, ascending. */
  function SlotIds(writable: set<int>): seq<int>
  {
    EventIdsIn(writable)
  }

  /** `supportsOfflineSchedules`: some writable attribute is an event id. */
  predicate SupportsOfflineSchedules(writable: set<int>)
  {
    exists id :: id in writable && IsEventAttributeId(id)
  }

  /** A device supports offline schedules exactly when it has a slot, and
      its slots are exactly its writable event attribute ids, ascending. */
  lemma SlotIdsSpec(writable: set<int>)
    ensures SupportsOfflineSchedules(writable) <==> |SlotIds(writable)| > 0
    ensures Increasing(SlotIds(writable))
    ensures forall i :: 0 <= i < |SlotIds(writable)| ==>
              SlotIds(writable)[i] in writable && IsEventAttributeId(SlotIds(writable)[i])
    ensures forall id :: id in writable && IsEventAttributeId(id) ==> id in SlotIds(writable)
  {
    InRangeSpec(writable, FirstEventAttributeId, LastEventAttributeId + 1);
    if SupportsOfflineSchedules(writable) {
      var id :| id in writable && IsEventAttributeId(id);
      assert id in SlotIds(writable);
    }
    if |SlotIds(writable)| > 0 {
      assert SlotIds(writable)[0] in writable;
    }
  }

  /** `unusedAttributeIds`. */
  function UnusedIds(slotIds: seq<int>, table: Table): set<int>
  {
    set id | id in slotIds && id !in table
  }

  /** `unusedAttributeIds.sorted().first`: the first slot id with no event. */
  function LowestUnused(slotIds: seq<int>, table: Table): (r: Option<int>)
    ensures r.None? <==> UnusedIds(slotIds, table) == {}
    ensures r.Some? ==> r.value in UnusedIds(slotIds, table)
    ensures r.Some? && Increasing(slotIds) ==> forall u :: u in UnusedIds(slotIds, table) ==> r.value <= u
  {
    if slotIds == [] then None
    else if slotIds[0] !in table then
      assert slotIds[0] in UnusedIds(slotIds, table);
      Some(slotIds[0])
    else
      var r := LowestUnused(slotIds[1..], table);
      assert UnusedIds(slotIds, table) == UnusedIds(slotIds[1..], table) by {
        forall id | id in slotIds && id !in table
          ensures id in slotIds[1..]
        {
          var i :| 0 <= i < |slotIds| && slotIds[i] == id;
          assert i != 0;
          assert slotIds[1..][i - 1] == id;
        }
      }
      r
  }

  // ---------------------------------------------------------------------
  // Looking events up.

  /** `attributeIdEventMap.values.contains(event)`. */
  predicate HasEqualEvent(table: Table, e: ScheduleEvent)
  {
    exists id :: id in table && EventEq(table[id], e)
  }

  function FirstSlotHolding(ids: seq<int>, table: Table, e: ScheduleEvent): (r: Option<int>)
    ensures r.Some? ==> r.value in ids && r.value in table && EventEq(table[r.value], e)
    ensures r.None? ==> forall i :: 0 <= i < |ids| && ids[i] in table ==> !EventEq(table[ids[i]], e)
  {
    if ids == [] then None
    else if ids[0] in table && EventEq(table[ids[0]], e) then Some(ids[0])
    else FirstSlotHolding(ids[1..], table, e)
  }

  /** `attributeId(for:)`: a slot holding an event equal to `e`. The source
      takes the first match in dictionary order, which Swift leaves
      unspecified; this model takes the lowest slot id. */
  function SlotOf(table: Table, e: ScheduleEvent): Option<int>
  {
    FirstSlotHolding(EventIdsIn(table.Keys), table, e)
  }

  /** A slot is found exactly when the table holds an equal event, and the
      slot found holds one. */
  lemma SlotOfSpec(table: Table, e: ScheduleEvent)
    requires WellFormed(table)
    ensures SlotOf(table, e).Some? <==> HasEqualEvent(table, e)
    ensures SlotOf(table, e).Some? ==>
      SlotOf(table, e).value in table && EventEq(table[SlotOf(table, e).value], e)
  {
    InRangeSpec(table.Keys, FirstEventAttributeId, LastEventAttributeId + 1);
    if HasEqualEvent(table, e) {
      var id :| id in table && EventEq(table[id], e);
      var ids := EventIdsIn(table.Keys);
      assert id in ids;
    }
  }

  function FirstIndexFrom(events: seq<ScheduleEvent>, k: nat, e: ScheduleEvent): (r: Option<nat>)
    requires k <= |events|
    ensures r.Some? ==> k <= r.value < |events| && EventEq(events[r.value], e)
                        && forall j :: k <= j < r.value ==> !EventEq(events[j], e)
    ensures r.None? ==> forall j :: k <= j < |events| ==> !EventEq(events[j], e)
    decreases |events| - k
  {
    if k == |events| then None
    else if EventEq(events[k], e) then Some(k)
    else FirstIndexFrom(events, k + 1, e)
  }

  /** `eventIndex(for:)`: the first position of the collated view holding an
      event equal to `e`. */
  function EventIndex(table: Table, e: ScheduleEvent): Option<nat>
  {
    FirstIndexFrom(CollatedEvents(table), 0, e)
  }

  /** A position is found exactly when some slot holds an equal event, and
      the position found holds the first equal event of the collated view. */
  lemma EventIndexSpec(table: Table, e: ScheduleEvent)
    requires WellFormed(table)
    ensures EventIndex(table, e).Some? <==> HasEqualEvent(table, e)
    ensures EventIndex(table, e).Some? ==>
      && EventIndex(table, e).value < |CollatedEvents(table)|
      && EventEq(CollatedEvents(table)[EventIndex(table, e).value], e)
      && forall j :: 0 <= j < EventIndex(table, e).value ==> !EventEq(CollatedEvents(table)[j], e)
  {
    CollatedEventsSpec(table);
    var events := CollatedEvents(table);
    if EventIndex(table, e).Some? {
      var i := EventIndex(table, e).value;
      assert events[i] in events;
      var id :| id in table && table[id] == events[i];
      assert EventEq(table[id], e);
    }
    if HasEqualEvent(table, e) {
      var id :| id in table && EventEq(table[id], e);
      assert table[id] in events;
      var i :| 0 <= i < |events| && events[i] == table[id];
      assert EventEq(events[i], e);
    }
  }

  // ---------------------------------------------------------------------
  // Values written and read back.

  /** `AttributeInstance`: an attribute id and the value to write to it. */
  datatype AttributeInstance = AttributeInstance(id: int, value: AttributeValue)

  /** The value `commitEvents` writes for a slot: the serialized event as raw
      bytes, or the one-byte `[0x00]` for an empty slot. */
  function SlotValue(table: Table, id: int): AttributeValue
  {
    if id in table then RawBytes(SerializedBytes(table[id])) else RawBytes([0])
  }

  /** The instances `commitEvents` writes, one per id in order. */
  function InstancesFor(ids: seq<int>, table: Table): (r: seq<AttributeInstance>)
    ensures |r| == |ids|
    ensures forall i :: 0 <= i < |ids| ==> r[i] == AttributeInstance(ids[i], SlotValue(table, ids[i]))
  {
    if ids == [] then [] else [AttributeInstance(ids[0], SlotValue(table, ids[0]))] + InstancesFor(ids[1..], table)
  }

  /** The instances whose id storage reports as written. */
  function SucceededOnly(instances: seq<AttributeInstance>, succeeded: set<int>): (r: seq<AttributeInstance>)
    ensures forall x :: x in r <==> x in instances && x.id in succeeded
    ensures |r| <= |instances|
  {
    if instances == [] then []
    else (if instances[0].id in succeeded then [instances[0]] else []) + SucceededOnly(instances[1..], succeeded)
  }

  /** What a storage update does to the table (`storageUpdated` for an event
      slot): a missing value or an incomplete buffer empties the slot, a
      parsed event fills it, and a thrown parse error leaves the table as it
      was (`None`). A trap has no outcome; callers exclude it. */
  function SlotUpdate(table: Table, id: int, value: Option<AttributeValue>,
                      types: map<int, DataType>, codec: ValueCodec): (r: Option<Table>)
    ensures r.Some? ==> r.value.Keys - {id} == table.Keys - {id}
    ensures r.Some? ==> forall k :: k in table && k != id ==> k in r.value && r.value[k] == table[k]
  {
    if value.None? then Some(table - {id})
    else match ParseEvent(value.value.payload, types, codec)
      case Parsed(e, _) => Some(table[id := e])
      case Incomplete => Some(table - {id})
      case Failed(_) => None
      case Trapped => None
  }

  /** What `commitEvents` writes for a slot is read back by a storage update
      as an event equal to the slot's event (under the assumed value round
      trip), and the empty-slot value reads back as an empty slot. */
  lemma CommitReadsBack(table: Table, id: int, other: Table, types: map<int, DataType>, codec: ValueCodec)
    requires Lawful(codec)
    requires id in table ==>
      && Decodable(table[id], types) && table[id].attributes != map[]
      && table[id].ts.hour <= 23 && table[id].ts.minute <= 59
    ensures var r := SlotUpdate(other, id, Some(SlotValue(table, id)), types, codec);
      && r.Some?
      && (id in table ==> id in r.value && EventEq(r.value[id], table[id]))
      && (id !in table ==> r.value == other - {id})
  {
    if id in table {
      SerializeRoundTrip(table[id], types, codec);
      var e := ParseEvent(SerializedBytes(table[id]), types, codec).event;
      assert Same(e.ts, table[id].ts) && e.attributes == table[id].attributes;
    } else {
      assert ParseEvent([0], types, codec) == Incomplete;
    }
  }

  // ---------------------------------------------------------------------
  // Queries.

  /** `EventFilterResult`: an event, its collated position and its slot. */
  datatype FilterResult = FilterResult(event: ScheduleEvent, index: nat, id: int)

  function FilterFrom(slots: seq<Slot>, k: nat, pred: ScheduleEvent -> bool): (r: seq<FilterResult>)
    requires k <= |slots|
    decreases |slots| - k
  {
    if k == |slots| then []
    else
      var rest := FilterFrom(slots, k + 1, pred);
      if pred(slots[k].event) then [FilterResult(slots[k].event, k, slots[k].id)] + rest else rest
  }

  lemma {:induction false} FilterFromSpec(slots: seq<Slot>, k: nat, pred: ScheduleEvent -> bool)
    requires k <= |slots|
    ensures var r := FilterFrom(slots, k, pred);
      && (forall x :: x in r ==> k <= x.index < |slots| && slots[x.index] == Slot(x.id, x.event) && pred(x.event))
      && (forall j :: k <= j < |slots| && pred(slots[j].event) ==> FilterResult(slots[j].event, j, slots[j].id) in r)
      && (forall a, b :: 0 <= a < b < |r| ==> r[a].index < r[b].index)
    decreases |slots| - k
  {
    if k < |slots| {
      FilterFromSpec(slots, k + 1, pred);
    }
  }

  /** `eventFilterResults(matching:)`: the collated positions whose event
      satisfies `pred`, in collated order, each with its slot id. */
  function FilterResults(table: Table, pred: ScheduleEvent -> bool): seq<FilterResult>
  {
    FilterFrom(CollatedSlots(table), 0, pred)
  }

  /** The filter lists exactly the slots whose event satisfies `pred`, each
      with the event shown at its collated position. */
  lemma FilterResultSlots(table: Table, pred: ScheduleEvent -> bool)
    requires WellFormed(table)
    ensures forall x :: x in FilterResults(table, pred) ==>
      && x.index < |CollatedEvents(table)| && CollatedEvents(table)[x.index] == x.event
      && x.id in table && table[x.id] == x.event && pred(x.event)
    ensures forall id :: id in table && pred(table[id]) ==>
      exists x :: x in FilterResults(table, pred) && x.id == id
  {
    CollatedSlotsSpec(table);
    var slots := CollatedSlots(table);
    FilterFromSpec(slots, 0, pred);
    forall x | x in FilterResults(table, pred)
      ensures x.id in table && table[x.id] == x.event
    {
      assert slots[x.index] in slots;
    }
    forall id | id in table && pred(table[id])
      ensures exists x :: x in FilterResults(table, pred) && x.id == id
    {
      assert Slot(id, table[id]) in slots;
      var j :| 0 <= j < |slots| && slots[j] == Slot(id, table[id]);
      assert FilterResult(slots[j].event, j, slots[j].id) in FilterResults(table, pred);
    }
  }

  /** Besides listing exactly the matching slots, the filter visits the
      collated view in order: positions ascend and none that matches is
      missed. */
  lemma FilterResultsSpec(table: Table, pred: ScheduleEvent -> bool)
    requires WellFormed(table)
    ensures forall x :: x in FilterResults(table, pred) ==>
      && x.index < |CollatedEvents(table)| && CollatedEvents(table)[x.index] == x.event
      && x.id in table && table[x.id] == x.event && pred(x.event)
    ensures forall id :: id in table && pred(table[id]) ==>
      exists x :: x in FilterResults(table, pred) && x.id == id
    ensures forall a, b :: 0 <= a < b < |FilterResults(table, pred)| ==>
      FilterResults(table, pred)[a].index < FilterResults(table, pred)[b].index
    ensures forall k :: 0 <= k < |CollatedEvents(table)| && pred(CollatedEvents(table)[k]) ==>
      exists j :: 0 <= j < |FilterResults(table, pred)| && FilterResults(table, pred)[j].index == k
  {
    FilterResultSlots(table, pred);
    CollatedSlotsSpec(table);
    var slots := CollatedSlots(table);
    FilterFromSpec(slots, 0, pred);
    forall k | 0 <= k < |CollatedEvents(table)| && pred(CollatedEvents(table)[k])
      ensures exists j :: 0 <= j < |FilterResults(table, pred)| && FilterResults(table, pred)[j].index == k
    {
      assert FilterResult(slots[k].event, k, slots[k].id) in FilterResults(table, pred);
    }
  }


  function EventsOf(results: seq<FilterResult>): (r: seq<ScheduleEvent>)
    ensures |r| == |results|
    ensures forall i :: 0 <= i < |r| ==> r[i] == results[i].event
  {
    if results == [] then [] else [results[0].event] + EventsOf(results[1..])
  }

  /** `events(matching:)`. */
  function EventsMatching(table: Table, pred: ScheduleEvent -> bool): seq<ScheduleEvent>
  {
    EventsOf(FilterResults(table, pred))
  }

  /** The test `dayOfWeek ∈ days`. */
  function OnDays(days: set<DayOfWeek>): ScheduleEvent -> bool
  {
    (e: ScheduleEvent) => DayOf(e.ts) in days
  }

  /** `events(forDayOfWeek:)`. */
  function EventsOnDay(table: Table, day: DayOfWeek): seq<ScheduleEvent>
  {
    EventsMatching(table, OnDays({day}))
  }

  /** `numberOfSupportedEventsPerDay`. */
  function EventsPerDay(slotCount: nat): nat
  {
    slotCount / 7
  }

  /** `dayEventCounts`. */
  function DayEventCounts(table: Table): map<DayOfWeek, nat>
  {
    map d: DayOfWeek | 1 <= d <= 7 :: |EventsOnDay(table, d)|
  }

  /** `availableDays`: days with fewer events than the per-day share. */
  function AvailableDays(table: Table, slotCount: nat): set<DayOfWeek>
  {
    set d: DayOfWeek | 1 <= d <= 7 && DayEventCounts(table)[d] < EventsPerDay(slotCount)
  }

  /** `unavailableDays`: the other days. */
  function UnavailableDays(table: Table, slotCount: nat): set<DayOfWeek>
  {
    AllDays - AvailableDays(table, slotCount)
  }

  /** Every day is available or unavailable and not both, and a day is
      unavailable exactly when it holds its share of events or more. */
  lemma DaysPartition(table: Table, slotCount: nat, d: DayOfWeek)
    ensures d in AvailableDays(table, slotCount) <==> d !in UnavailableDays(table, slotCount)
    ensures d in UnavailableDays(table, slotCount) <==> |EventsOnDay(table, d)| >= slotCount / 7
  {
  }

  /** Number of slots among `slots[k..]` whose event falls on one of the
      days `from..7`. */
  function CountFrom(slots: seq<Slot>, k: nat, from: int): nat
    requires k <= |slots| && 1 <= from <= 8
    decreases 8 - from
  {
    if from == 8 then 0 else |FilterFrom(slots, k, OnDays({from}))| + CountFrom(slots, k, from + 1)
  }

  lemma {:induction false} CountFromStep(slots: seq<Slot>, k: nat, from: int)
    requires k < |slots| && 1 <= from <= 8
    ensures CountFrom(slots, k, from) == CountFrom(slots, k + 1, from) + (if from <= DayOf(slots[k].event.ts) then 1 else 0)
    decreases 8 - from
  {
    if from < 8 {
      CountFromStep(slots, k, from + 1);
    }
  }

  lemma {:induction false} CountFromAll(slots: seq<Slot>, k: nat)
    requires k <= |slots|
    ensures CountFrom(slots, k, 1) == |slots| - k
    decreases |slots| - k
  {
    if k < |slots| {
      CountFromAll(slots, k + 1);
      CountFromStep(slots, k, 1);
    } else {
      CountFromEmpty(slots, 1);
    }
  }

  lemma {:induction false} CountFromEmpty(slots: seq<Slot>, from: int)
    requires 1 <= from <= 8
    ensures CountFrom(slots, |slots|, from) == 0
    decreases 8 - from
  {
    if from < 8 {
      CountFromEmpty(slots, from + 1);
    }
  }

  /** The seven day counts add up to the number of events: every event is
      counted on exactly one day, its `dayOfWeek`. */
  lemma DayCountsSum(table: Table)
    requires WellFormed(table)
    ensures var c := DayEventCounts(table);
      c[1] + c[2] + c[3] + c[4] + c[5] + c[6] + c[7] == |table|
  {
    var slots := CollatedSlots(table);
    CollatedSlotsSpec(table);
    CountFromAll(slots, 0);
    var c := DayEventCounts(table);
    assert CountFrom(slots, 0, 8) == 0;
    assert CountFrom(slots, 0, 7) == c[7];
    assert CountFrom(slots, 0, 6) == c[6] + c[7];
    assert CountFrom(slots, 0, 5) == c[5] + c[6] + c[7];
    assert CountFrom(slots, 0, 4) == c[4] + c[5] + c[6] + c[7];
    assert CountFrom(slots, 0, 3) == c[3] + c[4] + c[5] + c[6] + c[7];
    assert CountFrom(slots, 0, 2) == c[2] + c[3] + c[4] + c[5] + c[6] + c[7];
  }

  // ---------------------------------------------------------------------
  // UTC to device-local migration, one event.

  /** The calendar conversion of a UTC (day, hour, minute) to the device's
      time zone; `None` when the date arithmetic fails. */
  type Conversion = (DayOfWeek, byte, byte) -> Option<(DayOfWeek, byte, byte)>

  /** `asDeviceLocalTimeSpecification(in:)`: a device-local spec is returned
      as is; otherwise the converted single day, hour and minute, with the
      flags plus `usesDeviceTimeZone`, in the non-compact form. */
  function AsDeviceLocalTimeSpec(ts: TimeSpec, convert: Conversion): Option<TimeSpec>
  {
    if UsesDeviceTimeZone(ts) then Some(ts)
    else match convert(DayOf(ts), ts.hour, ts.minute)
      case None => None
      case Some(local) =>
        var (day, hour, minute) := local;
        Some(MakeTimeSpec({day}, hour, minute, WithFlag(ts.flags, UsesDeviceTimeZoneFlag, true), false))
  }

  /** The conversion leaves a device-local spec alone; a converted spec uses
      the device time zone, keeps `repeats`, and holds the single converted
      day — the other days of a multi-day UTC spec are dropped. */
  lemma AsDeviceLocalTimeSpecSpec(ts: TimeSpec, convert: Conversion)
    ensures UsesDeviceTimeZone(ts) ==> AsDeviceLocalTimeSpec(ts, convert) == Some(ts)
    ensures !UsesDeviceTimeZone(ts) ==>
      (AsDeviceLocalTimeSpec(ts, convert).None? <==> convert(DayOf(ts), ts.hour, ts.minute).None?)
    ensures !UsesDeviceTimeZone(ts) && AsDeviceLocalTimeSpec(ts, convert).Some? ==>
      var r := AsDeviceLocalTimeSpec(ts, convert).value;
      var local := convert(DayOf(ts), ts.hour, ts.minute).value;
      && UsesDeviceTimeZone(r)
      && Repeats(r) == Repeats(ts)
      && r.days == {local.0} && r.hour == local.1 && r.minute == local.2
      && !r.useCompact
      && r.flags == ts.flags | UsesDeviceTimeZoneFlag
  {
    if !UsesDeviceTimeZone(ts) && convert(DayOf(ts), ts.hour, ts.minute).Some? {
      var f := ts.flags;
      assert (f | UsesDeviceTimeZoneFlag) & RepeatsFlag == f & RepeatsFlag;
    }
  }

  /** `asDeviceLocalTimeEvent(in:)`: the event with its time spec converted
      and its attributes unchanged. */
  function AsDeviceLocalTimeEvent(e: ScheduleEvent, convert: Conversion): (r: Option<ScheduleEvent>)
    ensures r.Some? ==> r.value.attributes == e.attributes
    ensures UsesDeviceTimeZone(e.ts) ==> r == Some(e)
  {
    if UsesDeviceTimeZone(e.ts) then Some(e)
    else match AsDeviceLocalTimeSpec(e.ts, convert)
      case None => None
      case Some(ts) => Some(ScheduleEvent(ts, e.attributes))
  }

  /** Converting twice changes nothing more: a converted event is already
      device-local. */
  lemma AsDeviceLocalIdempotent(e: ScheduleEvent, convert: Conversion)
    requires AsDeviceLocalTimeEvent(e, convert).Some?
    ensures UsesDeviceTimeZone(AsDeviceLocalTimeEvent(e, convert).value.ts)
    ensures AsDeviceLocalTimeEvent(AsDeviceLocalTimeEvent(e, convert).value, convert)
         == AsDeviceLocalTimeEvent(e, convert)
  {
    AsDeviceLocalTimeSpecSpec(e.ts, convert);
  }

  /** The test `!usesDeviceTimeZone`. */
  function IsUtc(): ScheduleEvent -> bool
  {
    (e: ScheduleEvent) => !UsesDeviceTimeZone(e.ts)
  }

  /** `utcEvents`: the UTC events in collated order. */
  function UtcEvents(table: Table): seq<ScheduleEvent>
  {
    EventsMatching(table, IsUtc())
  }

  /** `utcEvents.prefix(maxCount)`: the batch one migration call converts. */
  function MigrationBatch(table: Table, maxCount: nat): seq<ScheduleEvent>
  {
    var utc := UtcEvents(table);
    if maxCount < |utc| then utc[..maxCount] else utc
  }

  /** The batch is the first `maxCount` UTC events in collated order, and
      every event in it is a UTC event of the table. */
  lemma MigrationBatchSpec(table: Table, maxCount: nat)
    requires WellFormed(table)
    ensures var b := MigrationBatch(table, maxCount);
      && |b| == (if maxCount < |UtcEvents(table)| then maxCount else |UtcEvents(table)|)
      && b == UtcEvents(table)[..|b|]
      && forall i :: 0 <= i < |b| ==> !UsesDeviceTimeZone(b[i].ts) && b[i] in CollatedEvents(table)
    // The batch is taken in collated order and skips no UTC event: the
    // collated positions of its events ascend, and every UTC event of the
    // schedule is either in the batch or after all of it.
    ensures var b := MigrationBatch(table, maxCount);
      var pos := FilterResults(table, IsUtc());
      && |b| <= |pos|
      && (forall i :: 0 <= i < |b| ==>
            pos[i].index < |CollatedEvents(table)| && b[i] == CollatedEvents(table)[pos[i].index])
      && (forall i, j :: 0 <= i < j < |b| ==> pos[i].index < pos[j].index)
      && (forall k :: 0 <= k < |CollatedEvents(table)| && !UsesDeviceTimeZone(CollatedEvents(table)[k].ts) ==>
            (exists i :: 0 <= i < |b| && pos[i].index == k) || (forall i :: 0 <= i < |b| ==> pos[i].index < k))
  {
    FilterResultsSpec(table, IsUtc());
    var results := FilterResults(table, IsUtc());
    var b := MigrationBatch(table, maxCount);
    forall i | 0 <= i < |b|
      ensures !UsesDeviceTimeZone(b[i].ts) && b[i] in CollatedEvents(table)
      ensures results[i].index < |CollatedEvents(table)| && b[i] == CollatedEvents(table)[results[i].index]
    {
      assert b[i] == results[i].event;
      assert results[i] in results;
    }
    UtcPrefixSpec(table, |b|);
  }

  /** The first `n` UTC positions, in collated order, are the `n` earliest
      UTC events of the schedule. */
  lemma UtcPrefixSpec(table: Table, n: nat)
    requires WellFormed(table)
    requires n <= |FilterResults(table, IsUtc())|
    ensures var pos := FilterResults(table, IsUtc());
      && (forall i, j :: 0 <= i < j < n ==> pos[i].index < pos[j].index)
      && (forall k :: 0 <= k < |CollatedEvents(table)| && !UsesDeviceTimeZone(CollatedEvents(table)[k].ts) ==>
            (exists i :: 0 <= i < n && pos[i].index == k) || (forall i :: 0 <= i < n ==> pos[i].index < k))
  {
    FilterResultsSpec(table, IsUtc());
    var pos := FilterResults(table, IsUtc());
    forall k | 0 <= k < |CollatedEvents(table)| && !UsesDeviceTimeZone(CollatedEvents(table)[k].ts)
      ensures (exists i :: 0 <= i < n && pos[i].index == k) || (forall i :: 0 <= i < n ==> pos[i].index < k)
    {
      assert IsUtc()(CollatedEvents(table)[k]);
      var j :| 0 <= j < |pos| && pos[j].index == k;
    }
  }

}
