/** Sequence helpers for the list filters the source writes as copy-and-remove loops. */
module Seqs {

  /** The elements of `s` that satisfy `keep`: each kept element is in `s`, and each element of `s` that satisfies `keep` is kept. */
  function Filter<T>(s: seq<T>, keep: T -> bool): (r: seq<T>)
    ensures |r| <= |s|
    ensures forall i :: 0 <= i < |r| ==> r[i] in s && keep(r[i])
    ensures forall i :: 0 <= i < |s| && keep(s[i]) ==> s[i] in r
    ensures (forall i :: 0 <= i < |s| ==> keep(s[i])) ==> r == s
    decreases |s|
  {
    if s == [] then []
    else if keep(s[0]) then [s[0]] + Filter(s[1..], keep)
    else Filter(s[1..], keep)
  }

  /** Filtering distributes over concatenation. */
  lemma {:induction false} FilterAppend<T>(a: seq<T>, b: seq<T>, keep: T -> bool)
    ensures Filter(a + b, keep) == Filter(a, keep) + Filter(b, keep)
    decreases |a|
  {
    if a != [] {
      assert (a + b)[1..] == a[1..] + b;
      FilterAppend(a[1..], b, keep);
    } else {
      assert a + b == b;
    }
  }
}
