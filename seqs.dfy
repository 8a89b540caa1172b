/**
 * Selecting, in order, the positions of a sequence whose element satisfies a
 * test: what a Python list comprehension `[x for x in xs if p(x)]` and a loop
 * that `continue`s past unwanted items both keep.
 */
module Seqs {

  /** The indices `j` of `s` with `p(s[j])`, in increasing order. */
  function Where<T>(s: seq<T>, p: T -> bool): (r: seq<nat>)
    ensures |r| <= |s|
    ensures forall k :: 0 <= k < |r| ==> r[k] < |s| && p(s[r[k]])
    ensures forall k, l :: 0 <= k < l < |r| ==> r[k] < r[l]
    ensures forall j :: 0 <= j < |s| && p(s[j]) ==> j in r
    decreases |s|
  {
    if s == [] then []
    else
      var init := Where(s[..|s| - 1], p);
      assert forall j :: 0 <= j < |s| - 1 ==> s[..|s| - 1][j] == s[j];
      if p(s[|s| - 1]) then init + [|s| - 1] else init
  }

  /** Appending an element extends the selection by that element's position exactly when it passes. */
  lemma WhereSnoc<T>(s: seq<T>, x: T, p: T -> bool)
    ensures Where(s + [x], p) == Where(s, p) + (if p(x) then [|s|] else [])
  {
    assert (s + [x])[..|s|] == s;
  }
}
