/** Shared vocabulary: bytes, optional values, and the ascending listing of
    the ids of a set that fall in a fixed id range, which the schedule uses
    wherever the source calls `sorted()` on a set of attribute ids. */
module Common {

  /** One byte on the wire (Swift `UInt8`). */
  type byte = bv8

  datatype Option<+T> = None | Some(value: T)

  /** True when `s` is strictly increasing (sorted, no duplicates). */
  predicate Increasing(s: seq<int>)
  {
    forall i, j :: 0 <= i < j < |s| ==> s[i] < s[j]
  }

  /** The members of `keys` in `[lo, hi)`, in ascending order. */
  function InRange(keys: set<int>, lo: int, hi: int): (r: seq<int>)
    decreases hi - lo
  {
    if hi <= lo then []
    else if lo in keys then [lo] + InRange(keys, lo + 1, hi)
    else InRange(keys, lo + 1, hi)
  }

  /** `InRange` lists exactly the members of `keys` in `[lo, hi)`, each once,
      in ascending order. */
  lemma {:induction false} InRangeSpec(keys: set<int>, lo: int, hi: int)
    ensures Increasing(InRange(keys, lo, hi))
    ensures forall i :: 0 <= i < |InRange(keys, lo, hi)| ==>
              var x := InRange(keys, lo, hi)[i]; x in keys && lo <= x < hi
    ensures forall x :: x in keys && lo <= x < hi ==> x in InRange(keys, lo, hi)
    decreases hi - lo
  {
    if lo < hi {
      InRangeSpec(keys, lo + 1, hi);
    }
  }

  /** When every key lies in `[lo, hi)`, `InRange` lists all of them. */
  lemma InRangeCount(keys: set<int>, lo: int, hi: int)
    requires forall x :: x in keys ==> lo <= x < hi
    ensures |InRange(keys, lo, hi)| == |keys|
  {
    InRangeSpec(keys, lo, hi);
    var r := InRange(keys, lo, hi);
    DistinctCount(r, keys);
  }

  /** A strictly increasing sequence whose elements are exactly `keys` has
      `|keys|` elements. */
  lemma {:induction false} DistinctCount(r: seq<int>, keys: set<int>)
    requires Increasing(r)
    requires forall i :: 0 <= i < |r| ==> r[i] in keys
    requires forall x :: x in keys ==> x in r
    ensures |r| == |keys|
  {
    if r == [] {
      assert forall x :: x !in keys;
      assert keys == {};
    } else {
      var last := r[|r| - 1];
      var front := r[..|r| - 1];
      forall x | x in keys - {last}
        ensures x in front
      {
        var i :| 0 <= i < |r| && r[i] == x;
        assert i != |r| - 1;
        assert front[i] == x;
      }
      assert last !in front;
      DistinctCount(front, keys - {last});
    }
  }
}
