/** The offline schedule object: the slot table it keeps, the cached collated
    view, the schedule flags, and the operations that change them. Change
    notifications are appended to a log; writes to storage are appended to a
    log too, and the storage's answer to a write is an input. */
module OfflineSchedules {
  import opened Common
  import opened TimeSpecs
  import opened Attributes
  import opened ScheduleEvents
  import opened Collation
  import opened ScheduleTables

  // ---------------------------------------------------------------------
  // Schedule flags (`OfflineSchedule.Flags`, an Int16 option set).

  const EnabledFlag: bv16 := 1

  predicate IsEnabled(flags: bv16)
  {
    flags & EnabledFlag == EnabledFlag
  }

  /** The `enabled` setter's insert or remove of bit 0. */
  function WithEnabled(flags: bv16, enabled: bool): (r: bv16)
    ensures IsEnabled(r) == enabled
    ensures r & !EnabledFlag == flags & !EnabledFlag
  {
    if enabled then flags | EnabledFlag else flags & !EnabledFlag
  }

  /** `Flags(rawValue: value?.suited() ?? 0)`. */
  function FlagsFrom(value: Option<AttributeValue>, codec: ValueCodec): bv16
  {
    if value.Some? && codec.toInt16(value.value).Some? then codec.toInt16(value.value).value else 0
  }

  // ---------------------------------------------------------------------
  // Outcomes.

  /** `OfflineSchedule.Event`. */
  datatype Notification = EnabledStateChanged(enabled: bool) | EventsChanged(deltas: Deltas)

  /** The reasons an operation's promise is rejected. */
  datatype Failure =
    | MaximumEventsReached
    | NoSuchEvent
    | NoAttributeIdForIndex
    | CountMismatch
    | StorageRejected
    | ConversionFailed
    | NoTimeZone

  /** A settled promise. */
  datatype Promise<T> = Fulfilled(value: T) | Rejected(failure: Failure)

  /** The storage's answer to a write: the whole write rejected, or the ids
      it reports as successfully written. */
  datatype StorageReply = WriteRejected | WriteResults(succeeded: set<int>)

  function Then<T, U>(p: Promise<T>, v: U): Promise<U>
  {
    if p.Rejected? then Rejected(p.failure) else Fulfilled(v)
  }

  /** The promise of `commitEvents(forAttributeIds:)`: no write and no
      instances for no ids; otherwise the written instances that storage
      reports as successful. */
  function CommitOutcome(ids: seq<int>, table: Table, reply: StorageReply): (r: Promise<seq<AttributeInstance>>)
    ensures ids == [] ==> r == Fulfilled([])
    ensures ids != [] && reply.WriteRejected? ==> r == Rejected(StorageRejected)
    ensures ids != [] && reply.WriteResults? ==>
      r.Fulfilled? && forall x :: x in r.value <==>
        exists i :: 0 <= i < |ids| && ids[i] in reply.succeeded && x == AttributeInstance(ids[i], SlotValue(table, ids[i]))
  {
    if ids == [] then Fulfilled([])
    else match reply
      case WriteRejected => Rejected(StorageRejected)
      case WriteResults(ok) =>
        var all := InstancesFor(ids, table);
        var r := SucceededOnly(all, ok);
        assert forall x :: x in all <==> exists i :: 0 <= i < |ids| && x == all[i];
        Fulfilled(r)
  }

  /** The writes `commitEvents(forAttributeIds:)` makes. */
  function WritesFor(ids: seq<int>, table: Table): seq<seq<AttributeInstance>>
  {
    if ids == [] then [] else [InstancesFor(ids, table)]
  }

  function IdsOf(p: Promise<seq<AttributeInstance>>): Promise<set<int>>
  {
    if p.Rejected? then Rejected(p.failure) else Fulfilled(set x | x in p.value :: x.id)
  }

  // ---------------------------------------------------------------------
  // The table and the notification log, step by step.

  /** The slot table together with the notifications sent so far. */
  datatype History = History(table: Table, notes: seq<Notification>)

  /** `scheduleEventsChanged` with the deltas between two collated views. */
  function Changed(before: Table, after: Table): Notification
  {
    EventsChanged(ComputeDeltas(CollatedEvents(before), CollatedEvents(after)))
  }

  function PutTable(h: History, t: Table): History
  {
    History(t, h.notes + [Changed(h.table, t)])
  }

  /** `setEvent(event:forAttributeId:)`: store or clear one slot and signal
      the deltas. */
  function Put(h: History, id: int, e: Option<ScheduleEvent>): History
  {
    PutTable(h, if e.Some? then h.table[id := e.value] else h.table - {id})
  }

  /** The slot's event, if any. */
  function Lookup<K, V>(m: map<K, V>, k: K): Option<V>
  {
    if k in m then Some(m[k]) else None
  }

  // Adding.

  datatype AddOutcome = Duplicate | Full | AddedAt(id: int)

  function AddOutcomeOf(slotIds: seq<int>, table: Table, e: ScheduleEvent): AddOutcome
  {
    if HasEqualEvent(table, e) then Duplicate
    else match LowestUnused(slotIds, table)
      case None => Full
      case Some(id) => AddedAt(id)
  }

  /** `addScheduleEvent(_:commit: false)`. */
  function AddOne(slotIds: seq<int>, h: History, e: ScheduleEvent): (History, Promise<set<int>>)
  {
    match AddOutcomeOf(slotIds, h.table, e)
    case Duplicate => (h, Fulfilled({}))
    case Full => (h, Rejected(MaximumEventsReached))
    case AddedAt(id) => (Put(h, id, Some(e)), Fulfilled({id}))
  }

  /** Adding an event equal (time spec and attributes) to one already held
      changes nothing and resolves to no ids; adding with no slot free
      rejects; otherwise the event goes to the lowest free slot, every other
      slot keeps its event, and the promise resolves to that slot alone. */
  lemma AddOneSpec(slotIds: seq<int>, h: History, e: ScheduleEvent)
    requires Increasing(slotIds)
    ensures var (h', p) := AddOne(slotIds, h, e);
      && (HasEqualEvent(h.table, e) ==> h' == h && p == Fulfilled({}))
      && (!HasEqualEvent(h.table, e) && UnusedIds(slotIds, h.table) == {} ==>
            h' == h && p == Rejected(MaximumEventsReached))
      && (!HasEqualEvent(h.table, e) && UnusedIds(slotIds, h.table) != {} ==>
            exists id ::
              && p == Fulfilled({id})
              && id in slotIds && id !in h.table
              && (forall u :: u in UnusedIds(slotIds, h.table) ==> id <= u)
              && h'.table == h.table[id := e]
              && h'.notes == h.notes + [Changed(h.table, h'.table)])
  {
    if !HasEqualEvent(h.table, e) && UnusedIds(slotIds, h.table) != {} {
      var id := LowestUnused(slotIds, h.table).value;
      assert AddOne(slotIds, h, e).1 == Fulfilled({id});
    }
  }

  /** The state of `addScheduleEvents` partway through: the history, the
      union of the fulfilled results, and the first rejection. */
  datatype AddBatch = AddBatch(history: History, ids: set<int>, failure: Option<Failure>)

  function AddAll(slotIds: seq<int>, acc: AddBatch, events: seq<ScheduleEvent>): AddBatch
    decreases |events|
  {
    if events == [] then acc
    else
      var (h, p) := AddOne(slotIds, acc.history, events[0]);
      var next :=
        if p.Fulfilled? then AddBatch(h, acc.ids + p.value, acc.failure)
        else AddBatch(h, acc.ids, if acc.failure.None? then Some(p.failure) else acc.failure);
      AddAll(slotIds, next, events[1..])
  }

  /** A batch of adds only fills free slots: slots that held an event keep
      it, and every id reported was free before and holds an event after. */
  lemma {:induction false} AddAllSpec(slotIds: seq<int>, acc: AddBatch, events: seq<ScheduleEvent>)
    requires Increasing(slotIds)
    requires forall id :: id in acc.ids ==> id in acc.history.table
    ensures var b := AddAll(slotIds, acc, events);
      && (forall id :: id in acc.history.table ==> id in b.history.table && b.history.table[id] == acc.history.table[id])
      && (forall id :: id in b.ids ==> id in b.history.table)
      && (forall id :: id in b.ids - acc.ids ==> id !in acc.history.table && id in slotIds)
    decreases |events|
  {
    if events != [] {
      AddOneSpec(slotIds, acc.history, events[0]);
      var (h, p) := AddOne(slotIds, acc.history, events[0]);
      var next :=
        if p.Fulfilled? then AddBatch(h, acc.ids + p.value, acc.failure)
        else AddBatch(h, acc.ids, if acc.failure.None? then Some(p.failure) else acc.failure);
      AddAllSpec(slotIds, next, events[1..]);
    }
  }

  // Replacing.

  datatype Replacement = Replacement(oldEvent: ScheduleEvent, newEvent: ScheduleEvent)

  /** `ReplaceEventResult`. */
  datatype ReplaceResult = ReplaceResult(oldEvent: ScheduleEvent, newEvent: ScheduleEvent, id: int)

  /** `replaceScheduleEvent(_:with:commit: false)`. */
  function ReplaceOne(h: History, oldEvent: ScheduleEvent, newEvent: ScheduleEvent): (History, Promise<ReplaceResult>)
  {
    match SlotOf(h.table, oldEvent)
    case None => (h, Rejected(NoSuchEvent))
    case Some(id) =>
      var result := ReplaceResult(oldEvent, newEvent, id);
      if EventEq(oldEvent, newEvent) then (h, Fulfilled(result))
      else (Put(h, id, Some(newEvent)), Fulfilled(result))
  }

  /** Replacing rejects exactly when no slot holds the old event; replacing
      an event by an equal one changes nothing; otherwise the new event
      overwrites the old one's slot, and no slot is allocated or freed. */
  lemma ReplaceOneSpec(h: History, oldEvent: ScheduleEvent, newEvent: ScheduleEvent)
    requires WellFormed(h.table)
    ensures var (h', p) := ReplaceOne(h, oldEvent, newEvent);
      && (p.Rejected? <==> !HasEqualEvent(h.table, oldEvent))
      && (p.Rejected? ==> h' == h && p.failure == NoSuchEvent)
      && (p.Fulfilled? ==>
            && p.value.oldEvent == oldEvent && p.value.newEvent == newEvent
            && p.value.id in h.table && EventEq(h.table[p.value.id], oldEvent)
            && h'.table.Keys == h.table.Keys)
      && (p.Fulfilled? && EventEq(oldEvent, newEvent) ==> h' == h)
      && (p.Fulfilled? && !EventEq(oldEvent, newEvent) ==>
            h'.table == h.table[p.value.id := newEvent] && h'.notes == h.notes + [Changed(h.table, h'.table)])
  {
    SlotOfSpec(h.table, oldEvent);
  }

  /** The state of `performReplacements` partway through: the history and
      the fulfilled results so far. */
  datatype ReplaceBatch = ReplaceBatch(history: History, results: seq<ReplaceResult>)

  function ReplaceAll(acc: ReplaceBatch, reps: seq<Replacement>): ReplaceBatch
    decreases |reps|
  {
    if reps == [] then acc
    else
      var (h, p) := ReplaceOne(acc.history, reps[0].oldEvent, reps[0].newEvent);
      var next := ReplaceBatch(h, if p.Fulfilled? then acc.results + [p.value] else acc.results);
      ReplaceAll(next, reps[1..])
  }

  /** A batch of replacements never allocates or frees a slot, and every
      result names an occupied slot. */
  lemma {:induction false} ReplaceAllSpec(acc: ReplaceBatch, reps: seq<Replacement>)
    requires WellFormed(acc.history.table)
    requires forall i :: 0 <= i < |acc.results| ==> acc.results[i].id in acc.history.table
    ensures var b := ReplaceAll(acc, reps);
      && b.history.table.Keys == acc.history.table.Keys
      && WellFormed(b.history.table)
      && |acc.results| <= |b.results| <= |acc.results| + |reps|
      && b.results[..|acc.results|] == acc.results
      && forall i :: 0 <= i < |b.results| ==> b.results[i].id in b.history.table
    decreases |reps|
  {
    if reps != [] {
      ReplaceOneSpec(acc.history, reps[0].oldEvent, reps[0].newEvent);
      var (h, p) := ReplaceOne(acc.history, reps[0].oldEvent, reps[0].newEvent);
      var next := ReplaceBatch(h, if p.Fulfilled? then acc.results + [p.value] else acc.results);
      assert h.table.Keys == acc.history.table.Keys;
      ReplaceAllSpec(next, reps[1..]);
      var b := ReplaceAll(next, reps[1..]);
      assert b.results[..|next.results|] == next.results;
      assert next.results[..|acc.results|] == acc.results;
      assert b.results[..|acc.results|] == b.results[..|next.results|][..|acc.results|];
    }
  }

  function ResultIds(results: seq<ReplaceResult>): (r: seq<int>)
    ensures |r| == |results|
    ensures forall i :: 0 <= i < |r| ==> r[i] == results[i].id
  {
    if results == [] then [] else [results[0].id] + ResultIds(results[1..])
  }

  /** `zip(oldEvents, newEvents)`. */
  function Zip(olds: seq<ScheduleEvent>, news: seq<ScheduleEvent>): (r: seq<Replacement>)
    requires |olds| == |news|
    ensures |r| == |olds|
    ensures forall i :: 0 <= i < |r| ==> r[i] == Replacement(olds[i], news[i])
  {
    if olds == [] then [] else [Replacement(olds[0], news[0])] + Zip(olds[1..], news[1..])
  }

  // Removing.

  function RemoveAll(h: History, ids: seq<int>): History
    decreases |ids|
  {
    if ids == [] then h else RemoveAll(Put(h, ids[0], None), ids[1..])
  }

  /** Removing a list of slots empties exactly those slots and leaves the
      rest as they were. */
  lemma {:induction false} RemoveAllSpec(h: History, ids: seq<int>)
    ensures forall k :: Lookup(RemoveAll(h, ids).table, k) == if k in ids then None else Lookup(h.table, k)
    decreases |ids|
  {
    if ids != [] {
      RemoveAllSpec(Put(h, ids[0], None), ids[1..]);
      forall k
        ensures k in ids <==> k == ids[0] || k in ids[1..]
      {
        assert ids == [ids[0]] + ids[1..];
      }
    }
  }

  // Priming from storage.

  /** What priming does to one slot: no stored value leaves it; a stored
      value that parses fills it; an incomplete one empties it; one that
      throws leaves it. */
  function PrimedSlot(prev: Option<ScheduleEvent>, value: Option<AttributeValue>,
                      types: map<int, DataType>, codec: ValueCodec): Option<ScheduleEvent>
  {
    if value.None? then prev
    else match ParseEvent(value.value.payload, types, codec)
      case Parsed(e, _) => Some(e)
      case Incomplete => None
      case Failed(_) => prev
      case Trapped => prev
  }

  /** One `primeStorage` pass: `storageUpdated` for a slot with a stored
      value. */
  function PrimeStep(h: History, id: int, stored: map<int, AttributeValue>,
                     types: map<int, DataType>, codec: ValueCodec): History
  {
    if id !in stored then h
    else match SlotUpdate(h.table, id, Some(stored[id]), types, codec)
      case None => h
      case Some(t) => PutTable(h, t)
  }

  function PrimeAll(h: History, ids: seq<int>, stored: map<int, AttributeValue>,
                    types: map<int, DataType>, codec: ValueCodec): History
    decreases |ids|
  {
    if ids == [] then h else PrimeAll(PrimeStep(h, ids[0], stored, types, codec), ids[1..], stored, types, codec)
  }

  /** Priming sets each listed slot from its stored value as `PrimedSlot`
      says, and leaves every other slot alone. */
  lemma {:induction false} PrimeAllSpec(h: History, ids: seq<int>, stored: map<int, AttributeValue>,
                                        types: map<int, DataType>, codec: ValueCodec)
    requires Increasing(ids)
    ensures forall k ::
              Lookup(PrimeAll(h, ids, stored, types, codec).table, k) ==
              (if k in ids then PrimedSlot(Lookup(h.table, k), Lookup(stored, k), types, codec) else Lookup(h.table, k))
    decreases |ids|
  {
    if ids != [] {
      var next := PrimeStep(h, ids[0], stored, types, codec);
      assert Increasing(ids[1..]);
      PrimeAllSpec(next, ids[1..], stored, types, codec);
      forall k
        ensures Lookup(next.table, k) ==
          if k == ids[0] then PrimedSlot(Lookup(h.table, k), Lookup(stored, k), types, codec) else Lookup(h.table, k)
      {
      }
      forall k
        ensures k in ids <==> k == ids[0] || k in ids[1..]
        ensures k == ids[0] ==> k !in ids[1..]
      {
        assert ids == [ids[0]] + ids[1..];
      }
    }
  }

  // Migrating.

  /** `OfflineScheduleMigrationResult`. */
  datatype Migration = Migration(from: ScheduleEvent, to: ScheduleEvent)

  /** The batch's replacements: each event with its device-local form;
      `None` if any conversion fails. */
  function ConvertAll(events: seq<ScheduleEvent>, convert: Conversion): (r: Option<seq<Replacement>>)
    ensures r.Some? ==> |r.value| == |events| && forall i :: 0 <= i < |events| ==>
      r.value[i].oldEvent == events[i] && AsDeviceLocalTimeEvent(events[i], convert) == Some(r.value[i].newEvent)
    ensures r.None? ==> exists i :: 0 <= i < |events| && AsDeviceLocalTimeEvent(events[i], convert).None?
  {
    if events == [] then Some([])
    else match AsDeviceLocalTimeEvent(events[0], convert)
      case None => None
      case Some(local) =>
        match ConvertAll(events[1..], convert)
        case None => None
        case Some(rest) => Some([Replacement(events[0], local)] + rest)
  }

  function Migrations(results: seq<ReplaceResult>): (r: seq<Migration>)
    ensures |r| == |results|
    ensures forall i :: 0 <= i < |r| ==> r[i] == Migration(results[i].oldEvent, results[i].newEvent)
  {
    if results == [] then [] else [Migration(results[0].oldEvent, results[0].newEvent)] + Migrations(results[1..])
  }

  // Positions and results to slot ids.

  /** The slot ids of a list of collated positions; `None` if any position
      has no slot. */
  function IdsAt(table: Table, indices: seq<int>): (r: Option<seq<int>>)
    ensures r.None? <==> exists i :: 0 <= i < |indices| && AttributeIdForIndex(table, indices[i]).None?
    ensures r.Some? ==> |r.value| == |indices|
    ensures r.Some? ==> forall i :: 0 <= i < |indices| ==> AttributeIdForIndex(table, indices[i]) == Some(r.value[i])
  {
    if indices == [] then Some([])
    else match AttributeIdForIndex(table, indices[0])
      case None => None
      case Some(id) =>
        match IdsAt(table, indices[1..])
        case None =>
          var i :| 0 <= i < |indices[1..]| && AttributeIdForIndex(table, indices[1..][i]).None?;
          assert indices[i + 1] == indices[1..][i];
          None
        case Some(rest) => Some([id] + rest)
  }

  /** The slot ids of filter results, in order. `ResultIds` does the same
      for replacement results: the two result records are different types,
      as `EventFilterResult` and `ReplaceEventResult` are in the source. */
  function ResultSlots(results: seq<FilterResult>): (r: seq<int>)
    ensures |r| == |results|
    ensures forall i :: 0 <= i < |r| ==> r[i] == results[i].id
  {
    if results == [] then [] else [results[0].id] + ResultSlots(results[1..])
  }

  lemma RemoveAllStep(h: History, ids: seq<int>, i: int)
    requires 0 <= i < |ids|
    ensures RemoveAll(h, ids[i..]) == RemoveAll(Put(h, ids[i], None), ids[i + 1..])
  {
    assert ids[i..][1..] == ids[i + 1..];
  }

  lemma MatchingSlotsAreEvents(table: Table, pred: ScheduleEvent -> bool)
    requires WellFormed(table)
    ensures forall i :: 0 <= i < |ResultSlots(FilterResults(table, pred))| ==>
              IsEventAttributeId(ResultSlots(FilterResults(table, pred))[i])
  {
    var results := FilterResults(table, pred);
    FilterResultSlots(table, pred);
    forall i | 0 <= i < |results|
      ensures IsEventAttributeId(results[i].id)
    {
      assert results[i] in results;
    }
  }

  /** `removeEvents(matching:)` empties exactly the slots whose event
      matches, and every other slot keeps its event. */
  lemma RemoveMatchingSpec(h: History, pred: ScheduleEvent -> bool)
    requires WellFormed(h.table)
    ensures forall k ::
              Lookup(RemoveAll(h, ResultSlots(FilterResults(h.table, pred))).table, k) ==
              (if k in h.table && pred(h.table[k]) then None else Lookup(h.table, k))
  {
    var results := FilterResults(h.table, pred);
    var ids := ResultSlots(results);
    FilterResultSlots(h.table, pred);
    RemoveAllSpec(h, ids);
    forall k
      ensures k in ids <==> k in h.table && pred(h.table[k])
    {
      if k in ids {
        var i :| 0 <= i < |ids| && ids[i] == k;
        assert results[i] in results;
      }
      if k in h.table && pred(h.table[k]) {
        var x :| x in results && x.id == k;
        var i :| 0 <= i < |results| && results[i] == x;
        assert ids[i] == k;
      }
    }
  }

  // ---------------------------------------------------------------------

  class OfflineSchedule {
    /** `attributeIds`: the slot ids, ascending. */
    const slotIds: seq<int>
    /** `storage.types`. */
    const types: map<int, DataType>
    const codec: ValueCodec

    /** `attributeIdEventMap`. */
    var table: Table
    /** `_collatedEvents`. */
    var cache: Option<seq<ScheduleEvent>>
    var flags: bv16
    /** Events sent on `offlineScheduleEventSignal`. */
    var notifications: seq<Notification>
    /** Each `storage.set(attributes:)` call. */
    var writes: seq<seq<AttributeInstance>>
    /** Each `storage.setOfflineScheduleFlags` call. */
    var flagWrites: seq<bv16>

    ghost predicate Valid()
      reads this
    {
      && Increasing(slotIds)
      && (forall i :: 0 <= i < |slotIds| ==> IsEventAttributeId(slotIds[i]))
      && WellFormed(table)
      && (cache.Some? ==> cache.value == CollatedEvents(table))
    }

    function Enabled(): bool
      reads this
    {
      IsEnabled(flags)
    }

    constructor Init(slotIds: seq<int>, types: map<int, DataType>, codec: ValueCodec, flags: bv16)
      requires Increasing(slotIds)
      requires forall i :: 0 <= i < |slotIds| ==> IsEventAttributeId(slotIds[i])
      ensures Valid()
      ensures this.slotIds == slotIds && this.types == types && this.codec == codec && this.flags == flags
      ensures table == map[] && cache == None && notifications == [] && writes == [] && flagWrites == []
    {
      this.slotIds := slotIds;
      this.types := types;
      this.codec := codec;
      this.flags := flags;
      table := map[];
      cache := None;
      notifications := [];
      writes := [];
      flagWrites := [];
    }

    /** `init?(storage:)`: no schedule for a device without writable event
      attributes; otherwise the flags from storage, then `primeStorage`. */
    static method Create(writable: set<int>, types: map<int, DataType>, codec: ValueCodec,
                         stored: map<int, AttributeValue>) returns (r: Option<OfflineSchedule>)
      requires forall id :: id in stored && IsEventAttributeId(id) ==> !ParseEvent(stored[id].payload, types, codec).Trapped?
      ensures r.None? <==> !SupportsOfflineSchedules(writable)
      ensures r.Some? ==>
        && fresh(r.value) && r.value.Valid()
        && r.value.slotIds == SlotIds(writable)
        && r.value.flags == FlagsFrom(Lookup(stored, FlagsAttributeId), codec)
        && History(r.value.table, r.value.notifications)
             == PrimeAll(History(map[], []), SlotIds(writable), stored, types, codec)
        && r.value.writes == [] && r.value.flagWrites == []
    {
      SlotIdsSpec(writable);
      var ids := SlotIds(writable);
      if ids == [] {
        return None;
      }
      var s := new OfflineSchedule.Init(ids, types, codec, FlagsFrom(Lookup(stored, FlagsAttributeId), codec));
      s.PrimeStorage(stored);
      return Some(s);
    }

    /** `primeStorage`: `storageUpdated` for every slot with a stored value,
        in slot order. */
    method PrimeStorage(stored: map<int, AttributeValue>)
      requires Valid()
      requires forall id :: id in stored && IsEventAttributeId(id) ==> !ParseEvent(stored[id].payload, types, codec).Trapped?
      modifies this
      ensures Valid()
      ensures History(table, notifications) == PrimeAll(History(old(table), old(notifications)), slotIds, stored, types, codec)
      ensures flags == old(flags) && writes == old(writes) && flagWrites == old(flagWrites)
    {
      for i := 0 to |slotIds|
        invariant Valid()
        invariant PrimeAll(History(table, notifications), slotIds[i..], stored, types, codec)
               == PrimeAll(History(old(table), old(notifications)), slotIds, stored, types, codec)
        invariant flags == old(flags) && writes == old(writes) && flagWrites == old(flagWrites)
      {
        var id := slotIds[i];
        assert slotIds[i..] == [id] + slotIds[i + 1..];
        if id in stored {
          StorageUpdated(id, Some(stored[id]));
        }
      }
    }

    /** The `collatedEvents` getter: the cached view, computed on a miss. */
    method Collated() returns (events: seq<ScheduleEvent>)
      requires Valid()
      modifies this
      ensures Valid()
      ensures events == CollatedEvents(table) && cache == Some(events)
      ensures table == old(table) && flags == old(flags) && notifications == old(notifications)
      ensures writes == old(writes) && flagWrites == old(flagWrites)
    {
      if cache.Some? {
        return cache.value;
      }
      events := CollatedEvents(table);
      cache := Some(events);
    }

    /** `setEvent(event:forAttributeId:)`: the view before, the table
        change, the cache dropped and rebuilt, and the deltas signalled. */
    method SetEvent(e: Option<ScheduleEvent>, id: int)
      requires Valid() && IsEventAttributeId(id)
      modifies this
      ensures Valid()
      ensures History(table, notifications) == Put(History(old(table), old(notifications)), id, e)
      ensures flags == old(flags) && writes == old(writes) && flagWrites == old(flagWrites)
    {
      var oldEvents := Collated();
      if e.Some? {
        table := table[id := e.value];
      } else {
        table := table - {id};
      }
      cache := None;
      var newEvents := Collated();
      notifications := notifications + [EventsChanged(ComputeDeltas(oldEvents, newEvents))];
    }

    /** `event(_:)`: the event at a collated position; out of range traps. */
    method EventAt(index: int) returns (e: ScheduleEvent)
      requires Valid() && 0 <= index < |CollatedEvents(table)|
      modifies this
      ensures Valid()
      ensures table == old(table) && flags == old(flags) && notifications == old(notifications)
      ensures writes == old(writes) && flagWrites == old(flagWrites)
      ensures e == CollatedEvents(table)[index]
    {
      var events := Collated();
      e := events[index];
    }

    /** `storageUpdated(_:attributeValue:)` for the flags attribute or an
        event slot. A value that makes the event parser trap is excluded. */
    method StorageUpdated(id: int, value: Option<AttributeValue>)
      requires Valid() && (id == FlagsAttributeId || IsEventAttributeId(id))
      requires id != FlagsAttributeId && value.Some? ==> !ParseEvent(value.value.payload, types, codec).Trapped?
      modifies this
      ensures Valid()
      ensures id == FlagsAttributeId ==>
        && flags == FlagsFrom(value, codec)
        && notifications == old(notifications) + [EnabledStateChanged(IsEnabled(flags))]
        && table == old(table)
      ensures id != FlagsAttributeId ==>
        && flags == old(flags)
        && var u := SlotUpdate(old(table), id, value, types, codec);
           History(table, notifications) ==
             if u.None? then History(old(table), old(notifications))
             else PutTable(History(old(table), old(notifications)), u.value)
      ensures writes == old(writes) && flagWrites == old(flagWrites)
    {
      if id == FlagsAttributeId {
        flags := FlagsFrom(value, codec);
        notifications := notifications + [EnabledStateChanged(IsEnabled(flags))];
        return;
      }
      if value.None? {
        SetEvent(None, id);
        return;
      }
      var parsed := FromBytes(value.value.payload, types, codec);
      match parsed {
        case Parsed(e, _) =>
          SetEvent(Some(e), id);
        case Incomplete =>
          SetEvent(None, id);
        case Failed(_) =>
        case Trapped =>
      }
    }

    /** `commitEvents(forAttributeIds:)`: write each slot's value (the
        serialized event, or `[0x00]` when empty) and keep the instances
        storage reports as written. */
    method CommitEvents(ids: seq<int>, reply: StorageReply) returns (r: Promise<seq<AttributeInstance>>)
      requires Valid()
      modifies this
      ensures Valid()
      ensures r == CommitOutcome(ids, table, reply)
      ensures writes == old(writes) + WritesFor(ids, table)
      ensures table == old(table) && cache == old(cache) && flags == old(flags)
      ensures notifications == old(notifications) && flagWrites == old(flagWrites)
    {
      if ids == [] {
        return Fulfilled([]);
      }
      var instances := InstancesFor(ids, table);
      writes := writes + [instances];
      match reply {
        case WriteRejected =>
          r := Rejected(StorageRejected);
        case WriteResults(ok) =>
          r := Fulfilled(SucceededOnly(instances, ok));
      }
    }

    /** `commitEvents(forEventIds:)`: collated positions to slot ids, then
        commit; a position with no slot rejects without writing. */
    method CommitEventsAt(indices: seq<int>, reply: StorageReply) returns (r: Promise<seq<AttributeInstance>>)
      requires Valid()
      modifies this
      ensures Valid()
      ensures table == old(table) && flags == old(flags)
      ensures notifications == old(notifications) && flagWrites == old(flagWrites)
      ensures indices == [] ==> r == Fulfilled([]) && writes == old(writes)
      ensures IdsAt(table, indices).None? ==> r == Rejected(NoAttributeIdForIndex) && writes == old(writes)
      ensures IdsAt(table, indices).Some? ==>
        r == CommitOutcome(IdsAt(table, indices).value, table, reply)
        && writes == old(writes) + WritesFor(IdsAt(table, indices).value, table)
    {
      if indices == [] {
        return Fulfilled([]);
      }
      var ids: seq<int> := [];
      for i := 0 to |indices|
        invariant |ids| == i
        invariant forall j :: 0 <= j < i ==> AttributeIdForIndex(table, indices[j]) == Some(ids[j])
      {
        var id := AttributeIdForIndex(table, indices[i]);
        if id.None? {
          return Rejected(NoAttributeIdForIndex);
        }
        ids := ids + [id.value];
      }
      assert forall i :: 0 <= i < |indices| ==> AttributeIdForIndex(table, indices[i]).Some?;
      assert IdsAt(table, indices).Some?;
      assert IdsAt(table, indices).value == ids;
      r := CommitEvents(ids, reply);
    }

    /** `addScheduleEvent(_:commit:)`. */
    method AddScheduleEvent(e: ScheduleEvent, commit: bool, reply: StorageReply) returns (r: Promise<set<int>>)
      requires Valid()
      modifies this
      ensures Valid()
      ensures var (h, p) := AddOne(slotIds, History(old(table), old(notifications)), e);
        && History(table, notifications) == h
        && var added := AddOutcomeOf(slotIds, old(table), e);
           if commit && added.AddedAt? then
             r == Then(CommitOutcome([added.id], table, reply), {}) && writes == old(writes) + WritesFor([added.id], table)
           else
             r == p && writes == old(writes)
      ensures flags == old(flags) && flagWrites == old(flagWrites)
    {
      if HasEqualEvent(table, e) {
        return Fulfilled({});
      }
      var free := LowestUnused(slotIds, table);
      if free.None? {
        return Rejected(MaximumEventsReached);
      }
      var id := free.value;
      SetEvent(Some(e), id);
      if commit {
        var c := CommitEvents([id], reply);
        return Then(c, {});
      }
      return Fulfilled({id});
    }

    /** `addScheduleEvents(_:commit:)`: every add is attempted without
        commit; the batch rejects with the first rejection (the successful
        adds stay), otherwise resolves to the union of the added slot ids,
        or, with commit, to the ids storage reports as written. */
    method AddScheduleEvents(events: seq<ScheduleEvent>, commit: bool, reply: StorageReply) returns (r: Promise<set<int>>)
      requires Valid()
      modifies this
      ensures Valid()
      ensures var b := AddAll(slotIds, AddBatch(History(old(table), old(notifications)), {}, None), events);
        && History(table, notifications) == b.history
        && (b.failure.Some? ==> r == Rejected(b.failure.value) && writes == old(writes))
        && (b.failure.None? && !commit ==> r == Fulfilled(b.ids) && writes == old(writes))
        && (b.failure.None? && commit ==>
              r == IdsOf(CommitOutcome(EventIdsIn(b.ids), table, reply))
              && writes == old(writes) + WritesFor(EventIdsIn(b.ids), table))
      ensures flags == old(flags) && flagWrites == old(flagWrites)
    {
      var ids: set<int> := {};
      var failure: Option<Failure> := None;
      for i := 0 to |events|
        invariant Valid()
        invariant AddAll(slotIds, AddBatch(History(table, notifications), ids, failure), events[i..])
               == AddAll(slotIds, AddBatch(History(old(table), old(notifications)), {}, None), events)
        invariant flags == old(flags) && writes == old(writes) && flagWrites == old(flagWrites)
      {
        assert events[i..] == [events[i]] + events[i + 1..];
        var p := AddScheduleEvent(events[i], false, reply);
        if p.Fulfilled? {
          ids := ids + p.value;
        } else if failure.None? {
          failure := Some(p.failure);
        }
      }
      if failure.Some? {
        return Rejected(failure.value);
      }
      if !commit {
        return Fulfilled(ids);
      }
      var c := CommitEvents(EventIdsIn(ids), reply);
      return IdsOf(c);
    }

    /** `replaceScheduleEvent(_:with:commit:)`. */
    method ReplaceScheduleEvent(oldEvent: ScheduleEvent, newEvent: ScheduleEvent, commit: bool, reply: StorageReply)
      returns (r: Promise<ReplaceResult>)
      requires Valid()
      modifies this
      ensures Valid()
      ensures var (h, p) := ReplaceOne(History(old(table), old(notifications)), oldEvent, newEvent);
        && History(table, notifications) == h
        && if commit && p.Fulfilled? && !EventEq(oldEvent, newEvent) then
             r == Then(CommitOutcome([p.value.id], table, reply), p.value)
             && writes == old(writes) + WritesFor([p.value.id], table)
           else
             r == p && writes == old(writes)
      ensures flags == old(flags) && flagWrites == old(flagWrites)
    {
      var slot := SlotOf(table, oldEvent);
      if slot.None? {
        return Rejected(NoSuchEvent);
      }
      var id := slot.value;
      SlotOfSpec(table, oldEvent);
      var result := ReplaceResult(oldEvent, newEvent, id);
      if EventEq(oldEvent, newEvent) {
        return Fulfilled(result);
      }
      SetEvent(Some(newEvent), id);
      if !commit {
        return Fulfilled(result);
      }
      var c := CommitEvents([id], reply);
      return Then(c, result);
    }

    /** `replaceScheduleEvent(at:with:commit:)`: an out-of-range position
        traps in `event(_:)`. */
    method ReplaceScheduleEventAt(index: int, newEvent: ScheduleEvent, commit: bool, reply: StorageReply)
      returns (r: Promise<ReplaceResult>)
      requires Valid() && 0 <= index < |CollatedEvents(table)|
      modifies this
      ensures Valid()
      ensures var e := CollatedEvents(old(table))[index];
        var (h, p) := ReplaceOne(History(old(table), old(notifications)), e, newEvent);
        && History(table, notifications) == h
        && p.Fulfilled? && p.value.id in old(table) && EventEq(old(table)[p.value.id], e)
        && if commit && !EventEq(e, newEvent) then
             r == Then(CommitOutcome([p.value.id], table, reply), p.value)
             && writes == old(writes) + WritesFor([p.value.id], table)
           else
             r == p && writes == old(writes)
      ensures flags == old(flags) && flagWrites == old(flagWrites)
    {
      var e := EventAt(index);
      CollatedEventsSpec(table);
      assert e in CollatedEvents(table);
      var id :| id in table && table[id] == e;
      EventOrder(e, e, e);
      assert HasEqualEvent(table, e);
      ReplaceOneSpec(History(table, notifications), e, newEvent);
      r := ReplaceScheduleEvent(e, newEvent, commit, reply);
    }

    /** `performReplacements(_:commit:)`: each replacement without commit,
        the fulfilled results kept in order, then one commit of their
        slots. */
    method PerformReplacements(reps: seq<Replacement>, commit: bool, reply: StorageReply)
      returns (r: Promise<seq<ReplaceResult>>)
      requires Valid()
      modifies this
      ensures Valid()
      ensures var b := ReplaceAll(ReplaceBatch(History(old(table), old(notifications)), []), reps);
        && History(table, notifications) == b.history
        && (!commit ==> r == Fulfilled(b.results) && writes == old(writes))
        && (commit ==>
              r == Then(CommitOutcome(ResultIds(b.results), table, reply), b.results)
              && writes == old(writes) + WritesFor(ResultIds(b.results), table))
      ensures flags == old(flags) && flagWrites == old(flagWrites)
    {
      var results: seq<ReplaceResult> := [];
      for i := 0 to |reps|
        invariant Valid()
        invariant ReplaceAll(ReplaceBatch(History(table, notifications), results), reps[i..])
               == ReplaceAll(ReplaceBatch(History(old(table), old(notifications)), []), reps)
        invariant flags == old(flags) && writes == old(writes) && flagWrites == old(flagWrites)
      {
        assert reps[i..] == [reps[i]] + reps[i + 1..];
        var p := ReplaceScheduleEvent(reps[i].oldEvent, reps[i].newEvent, false, reply);
        if p.Fulfilled? {
          results := results + [p.value];
        }
      }
      if !commit {
        return Fulfilled(results);
      }
      var c := CommitEvents(ResultIds(results), reply);
      return Then(c, results);
    }

    /** `replace(oldEvents:with:commit:)`: the lists must be equally long. */
    method Replace(olds: seq<ScheduleEvent>, news: seq<ScheduleEvent>, commit: bool, reply: StorageReply)
      returns (r: Promise<seq<ReplaceResult>>)
      requires Valid()
      modifies this
      ensures Valid()
      ensures |olds| != |news| ==>
        r == Rejected(CountMismatch) && table == old(table) && notifications == old(notifications) && writes == old(writes)
      ensures |olds| == |news| ==>
        var b := ReplaceAll(ReplaceBatch(History(old(table), old(notifications)), []), Zip(olds, news));
        && History(table, notifications) == b.history
        && (!commit ==> r == Fulfilled(b.results))
        && (commit ==> r == Then(CommitOutcome(ResultIds(b.results), table, reply), b.results))
        && writes == old(writes) + (if commit then WritesFor(ResultIds(b.results), table) else [])
      ensures flags == old(flags) && flagWrites == old(flagWrites)
    {
      if |olds| != |news| {
        return Rejected(CountMismatch);
      }
      r := PerformReplacements(Zip(olds, news), commit, reply);
    }

    /** `removeScheduleEvent(atIndex:commit:)`. */
    method RemoveScheduleEventAt(index: int, commit: bool, reply: StorageReply) returns (r: Promise<set<int>>)
      requires Valid()
      modifies this
      ensures Valid()
      ensures AttributeIdForIndex(old(table), index).None? ==>
        r == Rejected(NoAttributeIdForIndex)
        && table == old(table) && notifications == old(notifications) && writes == old(writes)
      ensures AttributeIdForIndex(old(table), index).Some? ==>
        var id := AttributeIdForIndex(old(table), index).value;
        && History(table, notifications) == Put(History(old(table), old(notifications)), id, None)
        && (!commit ==> r == Fulfilled({id}) && writes == old(writes))
        && (commit ==> r == Then(CommitOutcome([id], table, reply), {}) && writes == old(writes) + WritesFor([id], table))
      ensures flags == old(flags) && flagWrites == old(flagWrites)
    {
      var slot := AttributeIdForIndex(table, index);
      if slot.None? {
        return Rejected(NoAttributeIdForIndex);
      }
      var id := slot.value;
      AttributeIdForIndexSpec(table, index);
      SetEvent(None, id);
      if commit {
        var c := CommitEvents([id], reply);
        return Then(c, {});
      }
      return Fulfilled({id});
    }

    /** `removeScheduleEvent(_:commit:)`: an event not held resolves to no
        ids; otherwise the slot of its first equal in the collated view is
        emptied. */
    method RemoveScheduleEvent(e: ScheduleEvent, commit: bool, reply: StorageReply) returns (r: Promise<set<int>>)
      requires Valid()
      modifies this
      ensures Valid()
      ensures EventIndex(old(table), e).None? ==>
        r == Fulfilled({}) && table == old(table) && notifications == old(notifications) && writes == old(writes)
      ensures EventIndex(old(table), e).Some? ==>
        var id := AttributeIdForIndex(old(table), EventIndex(old(table), e).value).value;
        && id in old(table) && EventEq(old(table)[id], e)
        && History(table, notifications) == Put(History(old(table), old(notifications)), id, None)
        && (!commit ==> r == Fulfilled({id}) && writes == old(writes))
        && (commit ==> r == Then(CommitOutcome([id], table, reply), {}) && writes == old(writes) + WritesFor([id], table))
      ensures flags == old(flags) && flagWrites == old(flagWrites)
    {
      var events := Collated();
      var index := FirstIndexFrom(events, 0, e);
      if index.None? {
        return Fulfilled({});
      }
      ghost var before := table;
      AttributeIdForIndexSpec(table, index.value);
      CollatedEventsSpec(table);
      ghost var id := AttributeIdForIndex(table, index.value).value;
      r := RemoveScheduleEventAt(index.value, commit, reply);
      assert id in before && EventEq(before[id], e);
    }

    /** `removeEvents(matching:)`: the matching slots are listed first, then
        each is emptied, then all are committed. */
    method RemoveEvents(pred: ScheduleEvent -> bool, reply: StorageReply) returns (r: Promise<()>)
      requires Valid()
      modifies this
      ensures Valid()
      ensures var ids := ResultSlots(FilterResults(old(table), pred));
        && History(table, notifications) == RemoveAll(History(old(table), old(notifications)), ids)
        && r == Then(CommitOutcome(ids, table, reply), ())
        && writes == old(writes) + WritesFor(ids, table)
      ensures flags == old(flags) && flagWrites == old(flagWrites)
    {
      var ids := ResultSlots(FilterResults(table, pred));
      MatchingSlotsAreEvents(table, pred);
      for i := 0 to |ids|
        invariant Valid()
        invariant RemoveAll(History(table, notifications), ids[i..]) == RemoveAll(History(old(table), old(notifications)), ids)
        invariant flags == old(flags) && writes == old(writes) && flagWrites == old(flagWrites)
      {
        RemoveAllStep(History(table, notifications), ids, i);
        SetEvent(None, ids[i]);
      }
      assert ids[|ids|..] == [];
      var c := CommitEvents(ids, reply);
      return Then(c, ());
    }

    /** The `enabled` setter: set or clear bit 0, then write the flags. */
    method SetEnabled(enabled: bool)
      requires Valid()
      modifies this
      ensures Valid()
      ensures Enabled() == enabled
      ensures flags & !EnabledFlag == old(flags) & !EnabledFlag
      ensures flagWrites == old(flagWrites) + [flags]
      ensures table == old(table) && notifications == old(notifications) && writes == old(writes)
    {
      flags := WithEnabled(flags, enabled);
      flagWrites := flagWrites + [flags];
    }

    /** `migrateUTCEvent(event:)`: with no time zone, rejects; an event
        already in device time migrates to itself; an event not held, or one
        whose conversion fails, rejects; otherwise the event is replaced by
        its device-local form, committing. */
    method MigrateUTCEvent(e: ScheduleEvent, hasTimeZone: bool, convert: Conversion, reply: StorageReply)
      returns (r: Promise<Migration>)
      requires Valid()
      modifies this
      ensures Valid()
      ensures !hasTimeZone ==> r == Rejected(NoTimeZone)
      ensures hasTimeZone && UsesDeviceTimeZone(e.ts) ==> r == Fulfilled(Migration(e, e))
      ensures hasTimeZone && !UsesDeviceTimeZone(e.ts) && EventIndex(old(table), e).None? ==> r == Rejected(NoSuchEvent)
      ensures hasTimeZone && !UsesDeviceTimeZone(e.ts) && EventIndex(old(table), e).Some? &&
              AsDeviceLocalTimeEvent(e, convert).None? ==>
        r == Rejected(ConversionFailed)
      ensures !hasTimeZone || UsesDeviceTimeZone(e.ts) || EventIndex(old(table), e).None? ||
              AsDeviceLocalTimeEvent(e, convert).None? ==>
        table == old(table) && notifications == old(notifications) && writes == old(writes)
      ensures hasTimeZone && !UsesDeviceTimeZone(e.ts) && EventIndex(old(table), e).Some? &&
              AsDeviceLocalTimeEvent(e, convert).Some? ==>
        var local := AsDeviceLocalTimeEvent(e, convert).value;
        var (h, p) := ReplaceOne(History(old(table), old(notifications)), e, local);
        && History(table, notifications) == h
        && p.Fulfilled?
        && r == (if EventEq(e, local) then Fulfilled(Migration(e, local))
                 else Then(CommitOutcome([p.value.id], table, reply), Migration(e, local)))
        && writes == old(writes) + (if EventEq(e, local) then [] else WritesFor([p.value.id], table))
      ensures flags == old(flags) && flagWrites == old(flagWrites)
    {
      if !hasTimeZone {
        return Rejected(NoTimeZone);
      }
      if UsesDeviceTimeZone(e.ts) {
        return Fulfilled(Migration(e, e));
      }
      var events := Collated();
      var index := FirstIndexFrom(events, 0, e);
      if index.None? {
        return Rejected(NoSuchEvent);
      }
      var local := AsDeviceLocalTimeEvent(e, convert);
      if local.None? {
        return Rejected(ConversionFailed);
      }
      EventIndexSpec(table, e);
      ReplaceOneSpec(History(table, notifications), e, local.value);
      var p := ReplaceScheduleEvent(e, local.value, true, reply);
      r := Then(p, Migration(e, local.value));
    }

    /** `migrateUTCEvents(maxCount:)`: with no time zone, nothing; otherwise
        convert the first `maxCount` UTC events (any failure rejects before
        anything changes) and replace them, committing. */
    method MigrateUTCEvents(maxCount: nat, hasTimeZone: bool, convert: Conversion, reply: StorageReply)
      returns (r: Promise<seq<Migration>>)
      requires Valid()
      modifies this
      ensures Valid()
      ensures !hasTimeZone || ConvertAll(MigrationBatch(old(table), maxCount), convert).None? ==>
        table == old(table) && notifications == old(notifications) && writes == old(writes)
      ensures !hasTimeZone ==> r == Fulfilled([])
      ensures hasTimeZone && ConvertAll(MigrationBatch(old(table), maxCount), convert).None? ==> r == Rejected(ConversionFailed)
      ensures hasTimeZone && ConvertAll(MigrationBatch(old(table), maxCount), convert).Some? ==>
        var b := ReplaceAll(ReplaceBatch(History(old(table), old(notifications)), []),
                            ConvertAll(MigrationBatch(old(table), maxCount), convert).value);
        && History(table, notifications) == b.history
        && r == Then(CommitOutcome(ResultIds(b.results), table, reply), Migrations(b.results))
        && writes == old(writes) + WritesFor(ResultIds(b.results), table)
      ensures flags == old(flags) && flagWrites == old(flagWrites)
    {
      if !hasTimeZone {
        return Fulfilled([]);
      }
      var batch := MigrationBatch(table, maxCount);
      var reps := ConvertAll(batch, convert);
      if reps.None? {
        return Rejected(ConversionFailed);
      }
      var p := PerformReplacements(reps.value, true, reply);
      if p.Rejected? {
        return Rejected(p.failure);
      }
      return Fulfilled(Migrations(p.value));
    }
  }
}
