/** What the built filter means: which records a search keeps, and why the
    predicate it builds is a well-formed one-parameter lambda. */
module SearchProperties {
  import opened Results
  import opened Text
  import opened Sequences
  import opened Expressions
  import opened OrTree
  import opened SearchExtensions

  /** The value read is a non-null string in which `t` occurs. */
  ghost predicate FieldHas(v: Value, t: string) {
    v.TextV? && Occurs(t, v.text)
  }

  /** Reference meaning of a search: some property of `r` contains some term. */
  ghost predicate Matches(r: Record, ts: seq<string>, props: seq<Lambda>) {
    exists i, j :: 0 <= i < |ts| && 0 <= j < |props| && FieldHas(AccessorValue(props[j], r), ts[i])
  }

  ghost predicate AllWellTyped(props: seq<Lambda>) {
    forall j :: 0 <= j < |props| ==> WellTypedAccessor(props[j])
  }

  /** Terms that are all non-empty are all kept, in order. */
  lemma {:induction false} NonEmptyTermsKeepsAll(ts: seq<string>)
    requires forall i :: 0 <= i < |ts| ==> ts[i] != ""
    ensures NonEmptyTerms(AsTerms(ts)) == ts
    decreases |ts|
  {
    if |ts| > 0 {
      var n := |ts|;
      var terms := AsTerms(ts);
      NonEmptyTermsKeepsAll(ts[..n - 1]);
      assert terms[..n - 1] == AsTerms(ts[..n - 1]);
      NonEmptyTermsStep(terms, n - 1);
      assert terms[..n] == terms;
      assert ts[..n - 1] + [ts[n - 1]] == ts by { }
    }
  }

  /** Null or empty entries of a term array are ignored: dropping them keeps the
      same terms, and searching with them gives exactly the query built from the
      remaining terms. */
  lemma SearchIgnoresNullOrEmptyTerms(terms: seq<Term>, props: Option<seq<Lambda>>)
    ensures NonEmptyTerms(AsTerms(NonEmptyTerms(terms))) == NonEmptyTerms(terms)
    ensures Search(Some(terms), props) == Search(Some(AsTerms(NonEmptyTerms(terms))), props)
  {
    NonEmptyTermsKeepsAll(NonEmptyTerms(terms));
  }

  /** A leaf evaluated on a record tests whether the original accessor's value
      contains the term. */
  lemma EvalLeaf(t: string, acc: Lambda, q: ParamId, r: Record)
    requires WellTypedAccessor(acc)
    ensures Eval(Leaf(t, acc, q), map[q := r]) == BoolV(FieldHas(AccessorValue(acc, r), t))
  {
    SwappedAccessorReadsSameValue(acc, q, r);
    EvalWellTyped(acc.body, map[acc.param := r]);
  }

  /** Some leaf evaluates to true. */
  ghost predicate SomeLeafHolds(leaves: seq<Expr>, env: Env) {
    exists k :: 0 <= k < |leaves| && Eval(leaves[k], env) == BoolV(true)
  }

  /** Some property of `r` contains the term `t`. */
  ghost predicate SomeFieldHas(r: Record, t: string, props: seq<Lambda>) {
    exists j :: 0 <= j < |props| && FieldHas(AccessorValue(props[j], r), t)
  }

  /** One more term: a record matches exactly when it matched the earlier terms or
      some property contains the new one. */
  lemma MatchesStep(r: Record, ts: seq<string>, props: seq<Lambda>)
    requires |ts| > 0
    ensures Matches(r, ts, props) <==>
              Matches(r, ts[..|ts| - 1], props) || SomeFieldHas(r, ts[|ts| - 1], props)
  {
    var n := |ts|;
    var init := ts[..n - 1];
    if Matches(r, ts, props) {
      var i, j :| 0 <= i < n && 0 <= j < |props| && FieldHas(AccessorValue(props[j], r), ts[i]);
      if i < n - 1 {
        assert init[i] == ts[i];
      }
    }
    if Matches(r, init, props) {
      var i, j :| 0 <= i < n - 1 && 0 <= j < |props| && FieldHas(AccessorValue(props[j], r), init[i]);
      assert ts[i] == init[i];
    }
  }

  /** The leaves of one row evaluate to booleans, true exactly for the properties
      that contain the row's term. */
  lemma EvalRow(t: string, props: seq<Lambda>, q: ParamId, r: Record)
    requires AllWellTyped(props)
    ensures forall j :: 0 <= j < |props| ==>
              Eval(Row(t, props, q)[j], map[q := r]) == BoolV(FieldHas(AccessorValue(props[j], r), t))
  {
    forall j | 0 <= j < |props|
      ensures Eval(Row(t, props, q)[j], map[q := r]) == BoolV(FieldHas(AccessorValue(props[j], r), t))
    {
      EvalLeaf(t, props[j], q, r);
    }
  }

  /** A true leaf lies in the earlier leaves or in the new row. */
  lemma SomeLeafHoldsAppend(prefix: seq<Expr>, row: seq<Expr>, env: Env)
    ensures SomeLeafHolds(prefix + row, env) <==> SomeLeafHolds(prefix, env) || SomeLeafHolds(row, env)
  {
    var leaves := prefix + row;
    if SomeLeafHolds(leaves, env) {
      var k :| 0 <= k < |leaves| && Eval(leaves[k], env) == BoolV(true);
      if k >= |prefix| {
        assert leaves[k] == row[k - |prefix|];
      }
    }
    if SomeLeafHolds(prefix, env) {
      var k :| 0 <= k < |prefix| && Eval(prefix[k], env) == BoolV(true);
      assert leaves[k] == prefix[k];
    }
    if SomeLeafHolds(row, env) {
      var k :| 0 <= k < |row| && Eval(row[k], env) == BoolV(true);
      assert leaves[|prefix| + k] == row[k];
    }
  }

  /** Every leaf evaluates to a boolean, and some leaf is true exactly when some
      property of the record contains some term. */
  lemma {:induction false} SomeLeafHoldsIffMatch(ts: seq<string>, props: seq<Lambda>, q: ParamId, r: Record)
    requires AllWellTyped(props)
    ensures forall k :: 0 <= k < |LeavesOf(ts, props, q)| ==> Eval(LeavesOf(ts, props, q)[k], map[q := r]).BoolV?
    ensures SomeLeafHolds(LeavesOf(ts, props, q), map[q := r]) <==> Matches(r, ts, props)
    decreases |ts|
  {
    if |ts| > 0 {
      var env := map[q := r];
      var n := |ts|;
      var init, last := ts[..n - 1], ts[n - 1];
      SomeLeafHoldsIffMatch(init, props, q, r);
      var prefix := LeavesOf(init, props, q);
      var row := Row(last, props, q);
      assert LeavesOf(ts, props, q) == prefix + row;
      EvalRow(last, props, q, r);
      forall k | 0 <= k < |prefix + row|
        ensures Eval((prefix + row)[k], env).BoolV?
      {
        if k >= |prefix| {
          assert (prefix + row)[k] == row[k - |prefix|];
        }
      }
      SomeLeafHoldsAppend(prefix, row, env);
      assert SomeLeafHolds(row, env) <==> SomeFieldHas(r, last, props) by {
        if SomeLeafHolds(row, env) {
          var j :| 0 <= j < |row| && Eval(row[j], env) == BoolV(true);
          assert FieldHas(AccessorValue(props[j], r), last);
        }
        if SomeFieldHas(r, last, props) {
          var j :| 0 <= j < |props| && FieldHas(AccessorValue(props[j], r), last);
          assert Eval(row[j], env) == BoolV(true);
        }
      }
      MatchesStep(r, ts, props);
    }
  }

  /** The lambda a search builds holds on a record exactly when some property of
      the record contains some kept term. */
  lemma BuiltFilterHoldsIffMatch(ts: seq<string>, props: seq<Lambda>, r: Record)
    requires |ts| > 0 && |props| > 0 && AllWellTyped(props)
    ensures |LeavesOf(ts, props, props[0].param)| > 0
    ensures Holds(Lambda(props[0].param, FoldOr(LeavesOf(ts, props, props[0].param)).value), r)
            <==> Matches(r, ts, props)
  {
    var q := props[0].param;
    LeavesOfNonEmpty(ts, props, q);
    SomeLeafHoldsIffMatch(ts, props, q, r);
    EvalFoldOr(LeavesOf(ts, props, q), map[q := r]);
  }

  /** Soundness and completeness: a search over a source returns the source itself
      when it has no non-empty term or no property, and otherwise exactly the
      records some property of which contains some non-empty term, in source order. */
  lemma SearchKeepsExactlyTheMatchingRecords(src: seq<Record>, terms: seq<Term>, props: seq<Lambda>)
    requires AllWellTyped(props)
    ensures Search(Some(terms), Some(props)).Success?
    ensures NonEmptyTerms(terms) == [] || props == [] ==>
              Apply(Search(Some(terms), Some(props)).value, src) == src
    ensures NonEmptyTerms(terms) != [] && props != [] ==>
              Apply(Search(Some(terms), Some(props)).value, src) ==
              Filter(src, (r: Record) => Matches(r, NonEmptyTerms(terms), props))
  {
    var ts := NonEmptyTerms(terms);
    if ts != [] && props != [] {
      var lam := Search(Some(terms), Some(props)).value.filter;
      assert lam == Lambda(props[0].param, FoldOr(LeavesOf(ts, props, props[0].param)).value);
      forall k | 0 <= k < |src|
        ensures Holds(lam, src[k]) == Matches(src[k], ts, props)
      {
        BuiltFilterHoldsIffMatch(ts, props, src[k]);
      }
      FilterCongruence(src, (r: Record) => Holds(lam, r), (r: Record) => Matches(r, ts, props));
    }
  }

  /** Single-parameter invariant: the lambda a search builds is a well-typed boolean
      lambda whose only free parameter is its own, which is the first property's
      parameter; every disjunct is a `Contains` of a rebound accessor on a constant. */
  lemma BuiltFilterIsClosed(terms: seq<Term>, props: seq<Lambda>)
    requires AllWellTyped(props)
    ensures Search(Some(terms), Some(props)).Success?
    ensures var query := Search(Some(terms), Some(props)).value;
            query.Where? ==>
              && TypeOf(query.filter.body) == Some(BoolTy)
              && FreeParams(query.filter.body) <= {query.filter.param}
              && forall k :: 0 <= k < |Disjuncts(query.filter.body)| ==>
                   && Disjuncts(query.filter.body)[k].Contains?
                   && Disjuncts(query.filter.body)[k].term.Const?
                   && FreeParams(Disjuncts(query.filter.body)[k]) <= {query.filter.param}
  {
    var query := Search(Some(terms), Some(props)).value;
    if query.Where? {
      SearchBuildsOrChain(terms, props);
      var ts := NonEmptyTerms(terms);
      var q := props[0].param;
      var leaves := LeavesOf(ts, props, q);
      LeavesOfCount(ts, props, q);
      LeavesAreContains(ts, props, q);
      forall k | 0 <= k < |leaves|
        ensures TypeOf(leaves[k]) == Some(BoolTy) && FreeParams(leaves[k]) <= {q}
        ensures leaves[k].Contains? && leaves[k].term.Const?
      {
        LeafIsClosed(ts, props, q, k);
      }
      FoldOrTyped(leaves, {q});
    }
  }

  /** Each leaf is a boolean `Contains` over `q` alone, with a constant term. */
  lemma {:induction false} LeafIsClosed(ts: seq<string>, props: seq<Lambda>, q: ParamId, k: nat)
    requires AllWellTyped(props)
    requires k < |LeavesOf(ts, props, q)|
    ensures TypeOf(LeavesOf(ts, props, q)[k]) == Some(BoolTy)
    ensures FreeParams(LeavesOf(ts, props, q)[k]) <= {q}
    ensures LeavesOf(ts, props, q)[k].Contains? && LeavesOf(ts, props, q)[k].term.Const?
    decreases |ts|
  {
    var n := |ts|;
    var prefix := LeavesOf(ts[..n - 1], props, q);
    if k < |prefix| {
      LeafIsClosed(ts[..n - 1], props, q, k);
    } else {
      var j := k - |prefix|;
      SwappedAccessorReadsSameValue(props[j], q, map[]);
    }
  }
}
