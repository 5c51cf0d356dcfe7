/** utils/slice: membership of a string in a slice of strings. */
module Slice {

  /** Linear search with an early return: true exactly when some element is
      the entry, compared exactly (case-sensitive, no trimming). */
  method EntryExists(slice: seq<string>, entry: string) returns (found: bool)
    ensures found <==> exists i :: 0 <= i < |slice| && slice[i] == entry
  {
    var i := 0;
    while i < |slice|
      invariant 0 <= i <= |slice|
      invariant forall k :: 0 <= k < i ==> slice[k] != entry
    {
      if slice[i] == entry {
        return true;
      }
      i := i + 1;
    }
    return false;
  }

  /** The search's answer depends on the set of elements only: reordering
      or duplicating elements cannot change it. */
  lemma {:induction false} AnswerDependsOnElementsOnly(xs: seq<string>, ys: seq<string>, entry: string)
    requires forall x :: x in xs <==> x in ys
    ensures (exists i :: 0 <= i < |xs| && xs[i] == entry) <==> (exists j :: 0 <= j < |ys| && ys[j] == entry)
  {
    if exists i :: 0 <= i < |xs| && xs[i] == entry {
      var i :| 0 <= i < |xs| && xs[i] == entry;
      assert entry in ys;
    }
    if exists j :: 0 <= j < |ys| && ys[j] == entry {
      var j :| 0 <= j < |ys| && ys[j] == entry;
      assert entry in xs;
    }
  }
}
