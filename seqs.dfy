/** Sequence helpers: a query filter over the rows of a table. */
module Seqs {

  /** The elements of `s` that satisfy `keep`, in their original order
      (a `.filter(...)` on a queryset); each kept element occurs as often
      as it does in `s`. */
  function Filter<T(==,!new)>(s: seq<T>, keep: T -> bool): (r: seq<T>)
    ensures |r| <= |s|
    ensures forall i :: 0 <= i < |r| ==> keep(r[i])
    ensures forall x :: x in r <==> x in s && keep(x)
    ensures (forall i :: 0 <= i < |s| ==> keep(s[i])) ==> r == s
    ensures forall x :: multiset(r)[x] == if keep(x) then multiset(s)[x] else 0
  {
    if s == [] then []
    else
      assert s == [s[0]] + s[1..];
      if keep(s[0]) then [s[0]] + Filter(s[1..], keep)
      else Filter(s[1..], keep)
  }

  /** Filtering distributes over concatenation. */
  lemma {:induction false} FilterAppend<T(!new)>(s: seq<T>, t: seq<T>, keep: T -> bool)
    ensures Filter(s + t, keep) == Filter(s, keep) + Filter(t, keep)
  {
    if s == [] {
      assert s + t == t;
    } else {
      assert (s + t)[1..] == s[1..] + t;
      FilterAppend(s[1..], t, keep);
    }
  }

  /** A filter that keeps nothing of `t` yields the empty sequence. */
  lemma {:induction false} FilterNone<T(!new)>(t: seq<T>, keep: T -> bool)
    requires forall i :: 0 <= i < |t| ==> !keep(t[i])
    ensures Filter(t, keep) == []
  {
    if t != [] {
      FilterNone(t[1..], keep);
    }
  }
}
