/** The default collator: the sorted view of the slot table, the mapping from
    a position in that view back to a slot id, and the index deltas between
    two views. */
module Collation {
  import opened Common
  import opened TimeSpecs
  import opened ScheduleEvents

  /** The attribute id that holds the schedule flags. */
  const FlagsAttributeId: int := 59001

  /** The attribute ids that can hold schedule events: 59002 through 59999. */
  const FirstEventAttributeId: int := 59002
  const LastEventAttributeId: int := 59999

  predicate IsEventAttributeId(id: int)
  {
    FirstEventAttributeId <= id <= LastEventAttributeId
  }

  /** The event attribute ids among `ids`, ascending. */
  function EventIdsIn(ids: set<int>): seq<int>
  {
    InRange(ids, FirstEventAttributeId, LastEventAttributeId + 1)
  }

  /** One occupied slot: its attribute id and its event. */
  datatype Slot = Slot(id: int, event: ScheduleEvent)

  /** Non-decreasing under event `<`. */
  predicate Sorted(s: seq<Slot>)
  {
    forall i, j :: 0 <= i < j < |s| ==> !EventLess(s[j].event, s[i].event)
  }

  /** Insert `p` before the first slot that is not below it. */
  function Insert(p: Slot, s: seq<Slot>): seq<Slot>
  {
    if s == [] then [p]
    else if !EventLess(s[0].event, p.event) then [p] + s
    else [s[0]] + Insert(p, s[1..])
  }

  /** Insertion sort of slots by their events. */
  function SortSlots(s: seq<Slot>): seq<Slot>
  {
    if s == [] then [] else Insert(s[0], SortSlots(s[1..]))
  }

  /** Event `<` has transitive incomparability: `!(a < b)` and `!(b < c)`
      give `!(a < c)`. */
  lemma NotLessTransitive(a: ScheduleEvent, b: ScheduleEvent, c: ScheduleEvent)
    requires !EventLess(a, b) && !EventLess(b, c)
    ensures !EventLess(a, c)
  {
    NotLessTransitiveSpec(a.ts, b.ts, c.ts);
  }

  lemma {:induction false} InsertPermutes(p: Slot, s: seq<Slot>)
    ensures multiset(Insert(p, s)) == multiset(s) + multiset{p}
    decreases |s|
  {
    if s != [] && EventLess(s[0].event, p.event) {
      InsertPermutes(p, s[1..]);
      assert s == [s[0]] + s[1..];
    }
  }

  /** Putting `x` in front of a sorted sequence keeps it sorted when no
      element is below `x`. */
  lemma SortedCons(x: Slot, s: seq<Slot>)
    requires Sorted(s)
    requires forall k :: 0 <= k < |s| ==> !EventLess(s[k].event, x.event)
    ensures Sorted([x] + s)
  {
    var t := [x] + s;
    forall i, j | 0 <= i < j < |t|
      ensures !EventLess(t[j].event, t[i].event)
    {
      if i > 0 {
        assert t[i] == s[i - 1] && t[j] == s[j - 1];
      } else {
        assert t[j] == s[j - 1];
      }
    }
  }

  lemma {:induction false} InsertSorted(p: Slot, s: seq<Slot>)
    requires Sorted(s)
    ensures Sorted(Insert(p, s))
    decreases |s|
  {
    if s == [] {
    } else if EventLess(s[0].event, p.event) {
      InsertSorted(p, s[1..]);
      InsertPermutes(p, s[1..]);
      var t := Insert(p, s[1..]);
      forall k | 0 <= k < |t|
        ensures !EventLess(t[k].event, s[0].event)
      {
        assert t[k] in multiset(t);
        if t[k] == p {
          Trichotomy(p.event.ts, s[0].event.ts);
        } else {
          assert t[k] in multiset(s[1..]);
          var m :| 0 <= m < |s[1..]| && s[1..][m] == t[k];
          assert s[m + 1] == t[k];
        }
      }
      SortedCons(s[0], t);
    } else {
      forall j | 0 <= j < |s|
        ensures !EventLess(s[j].event, p.event)
      {
        if j > 0 {
          NotLessTransitive(s[j].event, s[0].event, p.event);
        }
      }
      SortedCons(p, s);
    }
  }

  /** The sort returns a non-decreasing permutation of its input. */
  lemma {:induction false} SortSlotsSpec(s: seq<Slot>)
    ensures Sorted(SortSlots(s))
    ensures multiset(SortSlots(s)) == multiset(s)
    decreases |s|
  {
    if s != [] {
      SortSlotsSpec(s[1..]);
      InsertSorted(s[0], SortSlots(s[1..]));
      InsertPermutes(s[0], SortSlots(s[1..]));
      assert s == [s[0]] + s[1..];
    }
  }

  /** The slots for `ids`, in that order. */
  function SlotsFor(ids: seq<int>, table: map<int, ScheduleEvent>): (r: seq<Slot>)
    requires forall i :: 0 <= i < |ids| ==> ids[i] in table
  {
    if ids == [] then [] else [Slot(ids[0], table[ids[0]])] + SlotsFor(ids[1..], table)
  }

  lemma {:induction false} SlotsForSpec(ids: seq<int>, table: map<int, ScheduleEvent>)
    requires forall i :: 0 <= i < |ids| ==> ids[i] in table
    ensures |SlotsFor(ids, table)| == |ids|
    ensures forall p :: p in SlotsFor(ids, table) <==> p.id in ids && p.id in table && table[p.id] == p.event
    decreases |ids|
  {
    if ids != [] {
      SlotsForSpec(ids[1..], table);
      assert ids == [ids[0]] + ids[1..];
    }
  }

  /** The occupied slots in event order. Slots enter the sort in ascending id
      order and the sort is stable, so ties go to the lower slot id. */
  function CollatedSlots(table: map<int, ScheduleEvent>): seq<Slot>
  {
    InRangeSpec(table.Keys, FirstEventAttributeId, LastEventAttributeId + 1);
    SortSlots(SlotsFor(EventIdsIn(table.Keys), table))
  }

  /** `scheduleEvents`: the events of the table, sorted by `<`. */
  function CollatedEvents(table: map<int, ScheduleEvent>): seq<ScheduleEvent>
  {
    var slots := CollatedSlots(table);
    seq(|slots|, i requires 0 <= i < |slots| => slots[i].event)
  }

  /** Every event of the table is listed once per slot holding it, in
      non-decreasing order, and each position names a slot holding the
      event at that position. */
  lemma CollatedSlotsSpec(table: map<int, ScheduleEvent>)
    requires forall id :: id in table ==> IsEventAttributeId(id)
    ensures Sorted(CollatedSlots(table))
    ensures |CollatedSlots(table)| == |table| == |CollatedEvents(table)|
    ensures forall p :: p in CollatedSlots(table) <==> p.id in table && table[p.id] == p.event
    ensures forall i :: 0 <= i < |CollatedSlots(table)| ==> CollatedEvents(table)[i] == CollatedSlots(table)[i].event
  {
    var ids := EventIdsIn(table.Keys);
    InRangeSpec(table.Keys, FirstEventAttributeId, LastEventAttributeId + 1);
    InRangeCount(table.Keys, FirstEventAttributeId, LastEventAttributeId + 1);
    var slots := SlotsFor(ids, table);
    SlotsForSpec(ids, table);
    SortSlotsSpec(slots);
    forall p
      ensures p in CollatedSlots(table) <==> p in slots
    {
      assert p in CollatedSlots(table) <==> p in multiset(CollatedSlots(table));
      assert p in slots <==> p in multiset(slots);
    }
  }

  /** The collated events are sorted, and the events listed are exactly the
      events of the table. */
  lemma CollatedEventsSpec(table: map<int, ScheduleEvent>)
    requires forall id :: id in table ==> IsEventAttributeId(id)
    ensures |CollatedEvents(table)| == |table|
    ensures forall i, j :: 0 <= i < j < |CollatedEvents(table)| ==>
              !EventLess(CollatedEvents(table)[j], CollatedEvents(table)[i])
    ensures forall e :: e in CollatedEvents(table) <==> exists id :: id in table && table[id] == e
  {
    CollatedSlotsSpec(table);
    var slots := CollatedSlots(table);
    var events := CollatedEvents(table);
    forall e
      ensures e in events <==> exists id :: id in table && table[id] == e
    {
      if e in events {
        var i :| 0 <= i < |events| && events[i] == e;
        assert slots[i] in slots;
      }
      if exists id :: id in table && table[id] == e {
        var id :| id in table && table[id] == e;
        assert Slot(id, e) in slots;
        var i :| 0 <= i < |slots| && slots[i] == Slot(id, e);
        assert events[i] == e;
      }
    }
  }

  /** `attributeIdForIndex`, with the bound on the number of events: the
      slot holding the event at position `index` of the collated view. */
  function AttributeIdForIndex(table: map<int, ScheduleEvent>, index: int): (r: Option<int>)
    ensures r.Some? <==> 0 <= index < |CollatedSlots(table)|
  {
    var slots := CollatedSlots(table);
    if 0 <= index < |slots| then Some(slots[index].id) else None
  }

  /** The slot id found for a position holds exactly the event shown at that
      position. */
  lemma AttributeIdForIndexSpec(table: map<int, ScheduleEvent>, index: int)
    requires forall id :: id in table ==> IsEventAttributeId(id)
    ensures 0 <= index < |table| <==> AttributeIdForIndex(table, index).Some?
    ensures AttributeIdForIndex(table, index).Some? ==>
      var id := AttributeIdForIndex(table, index).value;
      id in table && table[id] == CollatedEvents(table)[index]
  {
    CollatedSlotsSpec(table);
    if 0 <= index < |table| {
      assert CollatedSlots(table)[index] in CollatedSlots(table);
    }
  }

  /** How `attributeIdForIndex` can end: with a slot id, with the thrown
      out-of-bounds error, or by trapping on the array access. */
  datatype IndexOutcome = Found(id: int) | OutOfBounds | IndexTrap

  /** `attributeIdForIndex` as written: the guard compares the index with
      the number of slot ids (the capacity) instead of the number of events,
      and a negative index is not guarded at all. */
  function AttributeIdForIndexAsWritten(table: map<int, ScheduleEvent>, slotCount: nat, index: int): (r: IndexOutcome)
    ensures r.Found? ==> AttributeIdForIndex(table, index) == Some(r.id)
  {
    var slots := CollatedSlots(table);
    if !(index < slotCount) then OutOfBounds
    else if 0 <= index < |slots| then Found(slots[index].id)
    else IndexTrap
  }

  /** With capacity for two events and one event stored, index 1 passes the
      guard and then traps, where the bound on the event count would have
      thrown. */
  lemma AttributeIdForIndexTraps(e: ScheduleEvent)
    ensures AttributeIdForIndexAsWritten(map[59002 := e], 2, 1) == IndexTrap
    ensures AttributeIdForIndex(map[59002 := e], 1) == None
  {
    CollatedSlotsSpec(map[59002 := e]);
  }

  // ---------------------------------------------------------------------
  // Deltas.

  /** `Set(events).contains(e)`: some element equal under event `==`. */
  predicate ContainsEq(events: seq<ScheduleEvent>, e: ScheduleEvent)
  {
    exists k :: 0 <= k < |events| && EventEq(events[k], e)
  }

  /** Index deltas between two views. */
  datatype Deltas = Deltas(deletions: set<int>, insertions: set<int>)

  /** `deltas(before, after)`: the positions of `before` whose event has no
      equal in `after`, and the positions of `after` whose event has no
      equal in `before`. */
  function ComputeDeltas(before: seq<ScheduleEvent>, after: seq<ScheduleEvent>): (r: Deltas)
    ensures forall i :: i in r.deletions ==> 0 <= i < |before|
    ensures forall j :: j in r.insertions ==> 0 <= j < |after|
  {
    Deltas(
      set i | 0 <= i < |before| && !ContainsEq(after, before[i]),
      set j | 0 <= j < |after| && !ContainsEq(before, after[j]))
  }

  /** Comparing a view with itself, or with a view of equal events, reports
      nothing. */
  lemma DeltasOfEqualViews(before: seq<ScheduleEvent>, after: seq<ScheduleEvent>)
    requires |before| == |after|
    requires forall i :: 0 <= i < |before| ==> EventEq(before[i], after[i])
    ensures ComputeDeltas(before, after) == Deltas({}, {})
  {
    var d := ComputeDeltas(before, after);
    forall i | 0 <= i < |before|
      ensures ContainsEq(after, before[i]) && ContainsEq(before, after[i])
    {
      EventOrder(before[i], after[i], after[i]);
    }
    assert d.deletions == {};
    assert d.insertions == {};
  }

  /** Swapping the views swaps deletions and insertions. */
  lemma DeltasSwap(before: seq<ScheduleEvent>, after: seq<ScheduleEvent>)
    ensures ComputeDeltas(after, before) == Deltas(ComputeDeltas(before, after).insertions,
                                                   ComputeDeltas(before, after).deletions)
    ensures forall j :: 0 <= j < |after| ==>
      (j in ComputeDeltas(before, after).insertions <==>
         forall k :: 0 <= k < |before| ==> !EventEq(before[k], after[j]))
  {
    forall j | 0 <= j < |after|
      ensures j in ComputeDeltas(before, after).insertions <==>
                forall k :: 0 <= k < |before| ==> !EventEq(before[k], after[j])
    {
      DeltasSpec(after, before, j);
    }
  }

  /** A position is deleted exactly when its event has no equal after the
      change, and a kept position's event still appears. */
  lemma DeltasSpec(before: seq<ScheduleEvent>, after: seq<ScheduleEvent>, i: int)
    requires 0 <= i < |before|
    ensures i in ComputeDeltas(before, after).deletions <==>
              forall k :: 0 <= k < |after| ==> !EventEq(after[k], before[i])
    ensures i !in ComputeDeltas(before, after).deletions ==>
              exists k :: 0 <= k < |after| && EventEq(after[k], before[i])
  {
  }

  /** Replacing the second of two events by a third, not equal to either,
      deletes index 1 and inserts index 1. */
  lemma DeltasExample(e1: ScheduleEvent, e2: ScheduleEvent, e3: ScheduleEvent)
    requires !EventEq(e1, e2) && !EventEq(e1, e3) && !EventEq(e2, e3)
    ensures ComputeDeltas([e1, e2], [e1, e3]) == Deltas({1}, {1})
  {
    var d := ComputeDeltas([e1, e2], [e1, e3]);
    EventOrder(e1, e1, e1);
    EventOrder(e2, e1, e1);
    EventOrder(e3, e1, e1);
    EventOrder(e2, e3, e3);
    assert EventEq([e1, e3][0], e1);
    assert !ContainsEq([e1, e3], e2);
    assert EventEq([e1, e2][0], e1);
    assert !ContainsEq([e1, e2], e3);
    assert d.deletions == {1};
    assert d.insertions == {1};
  }
}
