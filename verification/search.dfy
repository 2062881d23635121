/** The `Search` extension methods: filter a record source down to the records in
    which some of the given string properties contains some of the given terms. */
module SearchExtensions {
  import opened Results
  import opened Text
  import opened Sequences
  import opened Expressions
  import opened OrTree

  /** A search term as passed in; `None` is a null string. */
  type Term = Option<string>

  /** `Ensure.ArgumentNotNull` failing for the named argument. */
  datatype SearchError = ArgumentNull(paramName: string)

  /** What a search does to its source: hand it back as it is, or apply `Where`
      with a one-parameter boolean lambda. */
  datatype Query = Unchanged | Where(filter: Lambda)

  /** `String.IsNullOrEmpty`. */
  predicate IsNullOrEmpty(t: Term) {
    t.None? || t.value == ""
  }

  /** The terms the search loop does not skip, in their original order. */
  function NonEmptyTerms(terms: seq<Term>): (ts: seq<string>)
    ensures |ts| <= |terms|
    ensures forall i :: 0 <= i < |ts| ==> ts[i] != ""
    decreases |terms|
  {
    if |terms| == 0 then []
    else
      var init := terms[..|terms| - 1];
      var last := terms[|terms| - 1];
      assert terms == init + [last];
      NonEmptyTerms(init) + (if IsNullOrEmpty(last) then [] else [last.value])
  }

  /** No term is kept exactly when every term is null or empty, the guard
      `searchTerms.All(String.IsNullOrEmpty)`. */
  lemma {:induction false} NonEmptyTermsEmptyIff(terms: seq<Term>)
    ensures NonEmptyTerms(terms) == [] <==> forall i :: 0 <= i < |terms| ==> IsNullOrEmpty(terms[i])
    decreases |terms|
  {
    if |terms| > 0 {
      var init := terms[..|terms| - 1];
      NonEmptyTermsEmptyIff(init);
      assert forall i :: 0 <= i < |init| ==> init[i] == terms[i];
    }
  }

  /** Non-null versions of the given strings, as a term array. */
  function AsTerms(ts: seq<string>): (terms: seq<Term>)
    ensures |terms| == |ts|
    ensures forall i :: 0 <= i < |ts| ==> terms[i] == Some(ts[i])
  {
    seq(|ts|, i requires 0 <= i < |ts| => Some(ts[i]))
  }

  /** The kept terms are the selection of the non-null, non-empty terms, in their
      original order. */
  lemma {:induction false} NonEmptyTermsIsFilter(terms: seq<Term>)
    ensures AsTerms(NonEmptyTerms(terms)) == Filter(terms, (t: Term) => !IsNullOrEmpty(t))
    decreases |terms|
  {
    if |terms| > 0 {
      var init, last := terms[..|terms| - 1], terms[|terms| - 1];
      NonEmptyTermsIsFilter(init);
      assert terms == init + [last];
      FilterSnoc(init, last, (t: Term) => !IsNullOrEmpty(t));
      assert AsTerms(NonEmptyTerms(init) + (if IsNullOrEmpty(last) then [] else [last.value])) ==
             AsTerms(NonEmptyTerms(init)) + (if IsNullOrEmpty(last) then [] else [last]);
    }
  }

  /** The loop goes on with exactly the non-null, non-empty terms: each of them is
      kept, nothing else is, and the kept ones keep their order. */
  lemma NonEmptyTermsMembers(terms: seq<Term>)
    ensures IsSubsequence(AsTerms(NonEmptyTerms(terms)), terms)
    ensures forall i :: 0 <= i < |terms| && !IsNullOrEmpty(terms[i]) ==> terms[i].value in NonEmptyTerms(terms)
    ensures forall t :: t in NonEmptyTerms(terms) ==> Some(t) in terms
  {
    var keep := (t: Term) => !IsNullOrEmpty(t);
    var ts := NonEmptyTerms(terms);
    NonEmptyTermsIsFilter(terms);
    assert IsSubsequence(AsTerms(ts), terms) by {
      FilterIsSelection(terms, keep);
    }
    forall i | 0 <= i < |terms| && !IsNullOrEmpty(terms[i])
      ensures terms[i].value in ts
    {
      assert terms[i] in AsTerms(ts) by {
        FilterMembership(terms, keep);
      }
      var k :| 0 <= k < |AsTerms(ts)| && AsTerms(ts)[k] == terms[i];
      assert ts[k] == terms[i].value;
    }
    forall t | t in ts
      ensures Some(t) in terms
    {
      var k :| 0 <= k < |ts| && ts[k] == t;
      assert AsTerms(ts)[k] == Some(t);
      assert multiset(terms)[Some(t)] > 0 by {
        assert multiset(AsTerms(ts))[Some(t)] > 0;
        FilterIsSelection(terms, keep);
      }
    }
  }

  /** `BuildContainsExpression`: the body of the (rebound) accessor, called with
      `string.Contains` on the constant search term. */
  function BuildContains(acc: Lambda, term: Expr): Expr {
    Contains(acc.body, term)
  }

  /** The `Contains` call on a string-typed accessor body is a boolean over the
      same parameters, and it is true exactly when the body reads a non-null string
      in which the constant term occurs; a null string never matches. */
  lemma BuildContainsMeaning(acc: Lambda, t: string, env: Env)
    requires TypeOf(acc.body) == Some(TextTy) && FreeParams(acc.body) <= env.Keys
    ensures TypeOf(BuildContains(acc, Const(t))) == Some(BoolTy)
    ensures FreeParams(BuildContains(acc, Const(t))) == FreeParams(acc.body)
    ensures Eval(BuildContains(acc, Const(t)), env) ==
              BoolV(Eval(acc.body, env).TextV? && Occurs(t, Eval(acc.body, env).text))
  {
    EvalWellTyped(acc.body, env);
  }

  /** The leaf built for term `t` and accessor `acc` once `acc` is rebound to `q`. */
  function Leaf(t: string, acc: Lambda, q: ParamId): Expr {
    BuildContains(SwapLambda(acc, acc.param, q), Const(t))
  }

  /** The leaves built by one pass of the inner loop, for term `t`. */
  function Row(t: string, props: seq<Lambda>, q: ParamId): seq<Expr> {
    seq(|props|, j requires 0 <= j < |props| => Leaf(t, props[j], q))
  }

  /** Every leaf the two loops build, in the order they are joined. */
  function LeavesOf(ts: seq<string>, props: seq<Lambda>, q: ParamId): (leaves: seq<Expr>)
    decreases |ts|
  {
    if |ts| == 0 then [] else LeavesOf(ts[..|ts| - 1], props, q) + Row(ts[|ts| - 1], props, q)
  }

  /** There are |ts| * |props| leaves. */
  lemma {:induction false} LeavesOfCount(ts: seq<string>, props: seq<Lambda>, q: ParamId)
    ensures |LeavesOf(ts, props, q)| == |ts| * |props|
    decreases |ts|
  {
    if |ts| > 0 {
      var n, m := |ts|, |props|;
      LeavesOfCount(ts[..n - 1], props, q);
      assert (n - 1) * m + m == n * m;
    }
  }

  /** The leaf for term i and property j sits at index i * |props| + j: the leaves
      are laid out term-major, property-minor. */
  lemma {:induction false} LeafAt(ts: seq<string>, props: seq<Lambda>, q: ParamId, i: nat, j: nat)
    requires i < |ts| && j < |props|
    ensures i * |props| + j < |LeavesOf(ts, props, q)|
    ensures LeavesOf(ts, props, q)[i * |props| + j] == Leaf(ts[i], props[j], q)
    decreases |ts|
  {
    var n, m := |ts|, |props|;
    var init := ts[..n - 1];
    var prefix := LeavesOf(init, props, q);
    var row := Row(ts[n - 1], props, q);
    assert LeavesOf(ts, props, q) == prefix + row;
    if i < n - 1 {
      LeafAt(init, props, q, i, j);
      assert ts[i] == init[i];
    } else {
      LeavesOfCount(init, props, q);
      assert i * m + j == |prefix| + j;
    }
  }

  /** With a term and a property there is at least one leaf. */
  lemma LeavesOfNonEmpty(ts: seq<string>, props: seq<Lambda>, q: ParamId)
    requires |ts| > 0 && |props| > 0
    ensures |LeavesOf(ts, props, q)| > 0
  {
    assert |Row(ts[|ts| - 1], props, q)| == |props|;
  }

  /** Every leaf is a `Contains` node, so none of them is an `OrElse`. */
  lemma {:induction false} LeavesAreContains(ts: seq<string>, props: seq<Lambda>, q: ParamId)
    ensures forall k :: 0 <= k < |LeavesOf(ts, props, q)| ==> LeavesOf(ts, props, q)[k].Contains?
    decreases |ts|
  {
    if |ts| > 0 {
      LeavesAreContains(ts[..|ts| - 1], props, q);
    }
  }

  /** Looking at one more term extends the kept terms by that term, unless it is
      null or empty. */
  lemma NonEmptyTermsStep(terms: seq<Term>, i: nat)
    requires i < |terms|
    ensures NonEmptyTerms(terms[..i + 1]) ==
              NonEmptyTerms(terms[..i]) + (if IsNullOrEmpty(terms[i]) then [] else [terms[i].value])
  {
    assert terms[..i + 1][..i] == terms[..i];
  }

  /** One more kept term appends its row of leaves. */
  lemma LeavesOfStep(ts: seq<string>, t: string, props: seq<Lambda>, q: ParamId)
    ensures LeavesOf(ts + [t], props, q) == LeavesOf(ts, props, q) + Row(t, props, q)
  {
    assert (ts + [t])[..|ts|] == ts;
  }

  /** One more property appends its leaf to the row. */
  lemma RowStep(t: string, props: seq<Lambda>, j: nat, q: ParamId)
    requires j < |props|
    ensures Row(t, props[..j + 1], q) == Row(t, props[..j], q) + [Leaf(t, props[j], q)]
  {
  }

  /** The inner `foreach` of the general `Search`, for one non-empty term `t`:
      rebinds each accessor to `q`, builds its `Contains` on `t` and joins it onto
      the accumulator, which holds the fold of the leaves `done` built so far. */
  method JoinTermLeaves(acc: Option<Expr>, t: string, props: seq<Lambda>, q: ParamId, ghost done: seq<Expr>)
    returns (orExpression: Option<Expr>)
    requires acc == FoldOr(done)
    ensures orExpression == FoldOr(done + Row(t, props, q))
  {
    orExpression := acc;
    var searchTermExpression := Const(t);
    var j := 0;
    assert done + Row(t, props[..0], q) == done by {
      assert Row(t, props[..0], q) == [];
    }
    while j < |props|
      invariant 0 <= j <= |props|
      invariant orExpression == FoldOr(done + Row(t, props[..j], q))
    {
      var swapped := SwapLambda(props[j], props[j].param, q);
      var containsExpression := BuildContains(swapped, searchTermExpression);
      assert FoldOr(done + Row(t, props[..j + 1], q)) ==
               Some(JoinOr(FoldOr(done + Row(t, props[..j], q)), containsExpression)) by {
        RowStep(t, props, j, q);
        assert done + Row(t, props[..j + 1], q) == (done + Row(t, props[..j], q)) + [containsExpression];
        FoldOrSnoc(done + Row(t, props[..j], q), containsExpression);
      }
      orExpression := Some(JoinOr(orExpression, containsExpression));
      j := j + 1;
    }
    assert props[..j] == props;
  }

  /** The outer `foreach` of the general `Search`: starting from a null
      accumulator, it skips null or empty terms and runs the inner loop for every
      other term. */
  method BuildOrExpression(terms: seq<Term>, props: seq<Lambda>, q: ParamId)
    returns (orExpression: Option<Expr>)
    ensures orExpression == FoldOr(LeavesOf(NonEmptyTerms(terms), props, q))
  {
    orExpression := None;
    var i := 0;
    assert terms[..0] == [];
    while i < |terms|
      invariant 0 <= i <= |terms|
      invariant orExpression == FoldOr(LeavesOf(NonEmptyTerms(terms[..i]), props, q))
    {
      var searchTerm := terms[i];
      ghost var kept := NonEmptyTerms(terms[..i]);
      NonEmptyTermsStep(terms, i);
      if !IsNullOrEmpty(searchTerm) {
        var t := searchTerm.value;
        orExpression := JoinTermLeaves(orExpression, t, props, q, LeavesOf(kept, props, q));
        LeavesOfStep(kept, t, props, q);
        assert NonEmptyTerms(terms[..i + 1]) == kept + [t];
      } else {
        assert NonEmptyTerms(terms[..i + 1]) == kept;
      }
      assert orExpression == FoldOr(LeavesOf(NonEmptyTerms(terms[..i + 1]), props, q));
      i := i + 1;
    }
    assert terms[..i] == terms;
  }

  /** The general overload, taking a term array and a property array: null checks
      on the term array, then on the property array; the source back unchanged when
      there is nothing to search for; otherwise a `Where` over the OR of all leaves,
      bound to the first property's parameter. */
  function Search(terms: Option<seq<Term>>, props: Option<seq<Lambda>>): (r: Result<Query, SearchError>)
    ensures terms.None? <==> r == Failure(ArgumentNull("searchTerms"))
    ensures terms.Some? && props.None? <==> r == Failure(ArgumentNull("stringProperties"))
    ensures r.Success? <==> terms.Some? && props.Some?
    ensures r == Success(Unchanged) <==>
              terms.Some? && props.Some? && (NonEmptyTerms(terms.value) == [] || props.value == [])
  {
    if terms.None? then Failure(ArgumentNull("searchTerms"))
    else if props.None? then Failure(ArgumentNull("stringProperties"))
    else
      NonEmptyTermsEmptyIff(terms.value);
      if |terms.value| == 0 || |props.value| == 0 then Success(Unchanged)
      else if forall i :: 0 <= i < |terms.value| ==> IsNullOrEmpty(terms.value[i]) then Success(Unchanged)
      else
        var q := props.value[0].param;
        LeavesOfNonEmpty(NonEmptyTerms(terms.value), props.value, q);
        Success(Where(Lambda(q, FoldOr(LeavesOf(NonEmptyTerms(terms.value), props.value, q)).value)))
  }

  /** The lambda a search builds is bound to the first property's parameter, and
      its body is a left-nested OR chain of exactly the leaves, in loop order. */
  lemma SearchBuildsOrChain(terms: seq<Term>, props: seq<Lambda>)
    requires Search(Some(terms), Some(props)).Success?
    ensures var query := Search(Some(terms), Some(props)).value;
            query.Where? ==>
              && |props| > 0
              && query.filter.param == props[0].param
              && LeftNested(query.filter.body)
              && Disjuncts(query.filter.body) == LeavesOf(NonEmptyTerms(terms), props, query.filter.param)
  {
    var query := Search(Some(terms), Some(props)).value;
    if query.Where? {
      var q := props[0].param;
      var ts := NonEmptyTerms(terms);
      LeavesOfNonEmpty(ts, props, q);
      LeavesAreContains(ts, props, q);
      FoldOrShape(LeavesOf(ts, props, q));
    }
  }

  /** The overload taking one property and one term. The property is checked before the
      term, so a null property fails even when the term is empty. */
  function SearchPropertyForTerm(prop: Option<Lambda>, term: Term): (r: Result<Query, SearchError>)
    ensures prop.None? ==> r == Failure(ArgumentNull("stringProperty"))
    ensures prop.Some? ==> r == Search(Some([term]), Some([prop.value]))
  {
    if prop.None? then Failure(ArgumentNull("stringProperty"))
    else if IsNullOrEmpty(term) then Success(Unchanged)
    else Search(Some([term]), Some([prop.value]))
  }

  /** The overload taking one term and a property array. */
  function SearchPropertiesForTerm(term: Term, props: Option<seq<Lambda>>): (r: Result<Query, SearchError>)
    ensures r == Search(Some([term]), props)
  {
    if props.None? then Failure(ArgumentNull("stringProperties"))
    else if IsNullOrEmpty(term) then Success(Unchanged)
    else Search(Some([term]), props)
  }

  /** The overload taking one property and a term array. */
  function SearchPropertyForTerms(prop: Option<Lambda>, terms: Option<seq<Term>>): (r: Result<Query, SearchError>)
    ensures prop.None? ==> r == Failure(ArgumentNull("stringProperty"))
    ensures prop.Some? ==> r == Search(terms, Some([prop.value]))
  {
    if prop.None? then Failure(ArgumentNull("stringProperty"))
    else if terms.None? then Failure(ArgumentNull("searchTerms"))
    else Search(terms, Some([prop.value]))
  }

  /** Whether `lam` evaluates to true on `r`. */
  predicate Holds(lam: Lambda, r: Record) {
    Eval(lam.body, map[lam.param := r]) == BoolV(true)
  }

  /** Runs a query over an in-memory source, as `Queryable.Where` would. */
  function Apply(query: Query, src: seq<Record>): seq<Record> {
    match query
    case Unchanged => src
    case Where(lam) => Filter(src, (r: Record) => Holds(lam, r))
  }

  /** `Apply` keeps an order-preserving part of the source, repeating no record:
      all of it when the search returned the source, and under `Where` exactly the
      records on which the lambda holds. */
  lemma ApplySelects(query: Query, src: seq<Record>)
    ensures query.Unchanged? ==> Apply(query, src) == src
    ensures IsSubsequence(Apply(query, src), src)
    ensures forall x :: multiset(Apply(query, src))[x] <= multiset(src)[x]
    ensures query.Where? ==> forall i :: 0 <= i < |Apply(query, src)| ==> Holds(query.filter, Apply(query, src)[i])
    ensures query.Where? ==> forall i :: 0 <= i < |src| && Holds(query.filter, src[i]) ==> src[i] in Apply(query, src)
  {
    match query
    case Unchanged => SubsequenceReflexive(src);
    case Where(lam) =>
      FilterIsSelection(src, (r: Record) => Holds(lam, r));
      FilterMembership(src, (r: Record) => Holds(lam, r));
  }
}
