/**
 Model of `binary(arr, key)`: bisection over an array the caller keeps
 sorted in non-decreasing order, returning the leftmost index whose
 element equals `key`, or `None` when no element does.
 */
module BinarySearch {
  import opened TypedArray

  /** Non-decreasing order; a precondition the routine does not check. */
  predicate Sorted(s: seq<real>) {
    forall i, j :: 0 <= i < j < |s| ==> s[i] <= s[j]
  }

  /** Leftmost bisection. `lo` only ever passes elements below `key` and
      `hi` only ever stops at elements at least `key`, so when they meet,
      `lo` is the first slot that can hold `key`. */
  method Binary(a: DynArray, key: real) returns (r: Option<nat>)
    requires Sorted(a.elems)
    ensures r == FirstIndex(a.elems, key)
    ensures r.None? <==> key !in a.elems
    ensures r.Some? ==> r.value < Length(a) && a.elems[r.value] == key
    ensures r.Some? ==> forall j :: 0 <= j < r.value ==> a.elems[j] < key
  {
    var s := a.elems;
    var lo, hi := 0, |s|;
    while lo < hi
      invariant 0 <= lo <= hi <= |s|
      invariant forall j :: 0 <= j < lo ==> s[j] < key
      invariant forall j :: hi <= j < |s| ==> key <= s[j]
    {
      var mid := (lo + hi) / 2;
      if s[mid] < key {
        lo := mid + 1;
      } else {
        hi := mid;
      }
    }
    if lo < |s| && s[lo] == key {
      r := Some(lo);
    } else {
      r := None;
    }
    FirstIndexIsUnique(s, key, r);
  }

  /** `FirstIndex` is the only answer that is either `None` for an absent
      key or the leftmost index holding it. */
  lemma FirstIndexIsUnique(s: seq<real>, key: real, r: Option<nat>)
    requires r.None? ==> key !in s
    requires r.Some? ==> r.value < |s| && s[r.value] == key
    requires r.Some? ==> forall j :: 0 <= j < r.value ==> s[j] != key
    ensures r == FirstIndex(s, key)
  {
  }
}
