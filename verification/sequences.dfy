/** Order-preserving selection over sequences: the in-memory meaning of `Where`. */
module Sequences {

  /** `r` can be obtained from `s` by deleting elements, keeping the order of the rest. */
  predicate IsSubsequence<T(==)>(r: seq<T>, s: seq<T>)
    decreases |s|
  {
    |r| == 0 ||
    (|s| > 0 && ((r[0] == s[0] && IsSubsequence(r[1..], s[1..])) || IsSubsequence(r, s[1..])))
  }

  lemma {:induction false} SubsequenceReflexive<T>(s: seq<T>)
    ensures IsSubsequence(s, s)
    decreases |s|
  {
    if |s| > 0 {
      SubsequenceReflexive(s[1..]);
    }
  }

  /** Keeps the elements of `s` that satisfy `keep`, in their original order. */
  function Filter<T>(s: seq<T>, keep: T -> bool): seq<T>
    decreases |s|
  {
    if |s| == 0 then []
    else if keep(s[0]) then [s[0]] + Filter(s[1..], keep)
    else Filter(s[1..], keep)
  }

  /** `Filter` deletes elements and keeps the order of the rest; each selected
      value occurs as often as in `s`, and each other value not at all. */
  lemma {:induction false} FilterIsSelection<T(!new)>(s: seq<T>, keep: T -> bool)
    ensures IsSubsequence(Filter(s, keep), s)
    ensures forall x :: multiset(Filter(s, keep))[x] == if keep(x) then multiset(s)[x] else 0
    decreases |s|
  {
    if |s| > 0 {
      var rest := Filter(s[1..], keep);
      FilterIsSelection(s[1..], keep);
      assert s == [s[0]] + s[1..];
      assert multiset(s) == multiset{s[0]} + multiset(s[1..]);
      if keep(s[0]) {
        var r := [s[0]] + rest;
        assert r[0] == s[0] && r[1..] == rest;
        assert IsSubsequence(r, s);
      } else {
        assert IsSubsequence(rest, s);
      }
    }
  }

  /** Every selected element satisfies `keep`, and every element of `s` that
      satisfies `keep` is selected. */
  lemma FilterMembership<T(!new)>(s: seq<T>, keep: T -> bool)
    ensures forall i :: 0 <= i < |Filter(s, keep)| ==> keep(Filter(s, keep)[i])
    ensures forall i :: 0 <= i < |s| && keep(s[i]) ==> s[i] in Filter(s, keep)
  {
    var r := Filter(s, keep);
    FilterIsSelection(s, keep);
    forall i | 0 <= i < |r|
      ensures keep(r[i])
    {
      assert multiset(r)[r[i]] > 0;
    }
    forall i | 0 <= i < |s| && keep(s[i])
      ensures s[i] in r
    {
      assert multiset(s)[s[i]] > 0;
      assert multiset(r)[s[i]] > 0;
    }
  }

  /** Looking at one more element at the end extends the selection by that
      element exactly when it is kept. */
  lemma {:induction false} FilterSnoc<T>(s: seq<T>, x: T, keep: T -> bool)
    ensures Filter(s + [x], keep) == Filter(s, keep) + (if keep(x) then [x] else [])
    decreases |s|
  {
    if |s| > 0 {
      FilterSnoc(s[1..], x, keep);
      assert (s + [x])[1..] == s[1..] + [x];
    }
  }

  /** Two selectors that agree on every element of `s` select the same records. */
  lemma {:induction false} FilterCongruence<T(!new)>(s: seq<T>, f: T -> bool, g: T -> bool)
    requires forall i :: 0 <= i < |s| ==> f(s[i]) == g(s[i])
    ensures Filter(s, f) == Filter(s, g)
    decreases |s|
  {
    if |s| > 0 {
      FilterCongruence(s[1..], f, g);
    }
  }
}
