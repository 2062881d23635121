/** The OR chain the search folds its `Contains` leaves into. */
module OrTree {
  import opened Results
  import opened Expressions

  /** The operands of the `OrElse` nodes at the top of `e`, from left to right. */
  function Disjuncts(e: Expr): seq<Expr> {
    match e
    case OrElse(left, right) => Disjuncts(left) + Disjuncts(right)
    case _ => [e]
  }

  /** `e` is `((a || b) || c) || ...`: every right operand is a leaf. */
  predicate LeftNested(e: Expr) {
    match e
    case OrElse(left, right) => LeftNested(left) && !right.OrElse?
    case _ => true
  }

  /** `JoinOrExpression`: a null accumulator is replaced by the new expression;
      otherwise both are joined, unchanged, under one `OrElse`. */
  function JoinOr(existing: Option<Expr>, e: Expr): (r: Expr)
    ensures existing.None? ==> r == e
    ensures existing.Some? ==> r.OrElse? && r.left == existing.value && r.right == e
    ensures Disjuncts(r) == (if existing.Some? then Disjuncts(existing.value) else []) + Disjuncts(e)
  {
    if existing.None? then e else OrElse(existing.value, e)
  }

  /** The accumulator after joining `leaves` one after another, starting from null. */
  function FoldOr(leaves: seq<Expr>): (r: Option<Expr>)
    ensures r.Some? <==> |leaves| > 0
    decreases |leaves|
  {
    if |leaves| == 0 then None
    else
      var init := leaves[..|leaves| - 1];
      assert leaves == init + [leaves[|leaves| - 1]];
      Some(JoinOr(FoldOr(init), leaves[|leaves| - 1]))
  }

  /** Folding leaves none of which is an `OrElse` gives a left-nested chain whose
      disjuncts are exactly those leaves, in order. */
  lemma {:induction false} FoldOrShape(leaves: seq<Expr>)
    requires |leaves| > 0
    requires forall k :: 0 <= k < |leaves| ==> !leaves[k].OrElse?
    ensures LeftNested(FoldOr(leaves).value)
    ensures Disjuncts(FoldOr(leaves).value) == leaves
    decreases |leaves|
  {
    var n := |leaves|;
    var init, last := leaves[..n - 1], leaves[n - 1];
    assert init + [last] == leaves;
    if n == 1 {
      assert FoldOr(init) == None;
      assert Disjuncts(last) == [last];
    } else {
      assert forall k :: 0 <= k < n - 1 ==> init[k] == leaves[k];
      FoldOrShape(init);
      var prev := FoldOr(init).value;
      assert FoldOr(leaves).value == OrElse(prev, last);
      assert Disjuncts(OrElse(prev, last)) == init + [last];
    }
  }

  /** Joining one more leaf onto a fold is folding the longer sequence. */
  lemma FoldOrSnoc(leaves: seq<Expr>, e: Expr)
    ensures FoldOr(leaves + [e]) == Some(JoinOr(FoldOr(leaves), e))
  {
    assert (leaves + [e])[..|leaves|] == leaves;
  }

  /** Over boolean operands `OrElse` is the disjunction of their values. */
  lemma EvalOrElse(left: Expr, right: Expr, env: Env)
    requires Eval(left, env).BoolV? && Eval(right, env).BoolV?
    ensures Eval(OrElse(left, right), env) == BoolV(Eval(left, env).b || Eval(right, env).b)
  {
  }

  /** The fold evaluates to true exactly when some leaf does, provided every leaf
      evaluates to a boolean. */
  lemma {:induction false} EvalFoldOr(leaves: seq<Expr>, env: Env)
    requires |leaves| > 0
    requires forall k :: 0 <= k < |leaves| ==> Eval(leaves[k], env).BoolV?
    ensures Eval(FoldOr(leaves).value, env) ==
              BoolV(exists k :: 0 <= k < |leaves| && Eval(leaves[k], env) == BoolV(true))
    decreases |leaves|
  {
    var n := |leaves|;
    if n == 1 {
      assert FoldOr(leaves).value == leaves[0];
    } else {
      var init := leaves[..n - 1];
      var last := leaves[n - 1];
      assert forall k :: 0 <= k < n - 1 ==> init[k] == leaves[k];
      EvalFoldOr(init, env);
      assert FoldOr(leaves).value == OrElse(FoldOr(init).value, last);
      EvalOrElse(FoldOr(init).value, last, env);
      var some := exists k :: 0 <= k < n && Eval(leaves[k], env) == BoolV(true);
      var someInit := exists k :: 0 <= k < n - 1 && Eval(init[k], env) == BoolV(true);
      if someInit {
        var k :| 0 <= k < n - 1 && Eval(init[k], env) == BoolV(true);
        assert Eval(leaves[k], env) == BoolV(true);
      }
      if some {
        var k :| 0 <= k < n && Eval(leaves[k], env) == BoolV(true);
        assert k < n - 1 ==> Eval(init[k], env) == BoolV(true);
      }
      assert some == (someInit || Eval(last, env).b);
    }
  }

  /** A fold of boolean leaves over the parameters `ps` is a boolean tree over `ps`. */
  lemma {:induction false} FoldOrTyped(leaves: seq<Expr>, ps: set<ParamId>)
    requires |leaves| > 0
    requires forall k :: 0 <= k < |leaves| ==> TypeOf(leaves[k]) == Some(BoolTy)
    requires forall k :: 0 <= k < |leaves| ==> FreeParams(leaves[k]) <= ps
    ensures TypeOf(FoldOr(leaves).value) == Some(BoolTy)
    ensures FreeParams(FoldOr(leaves).value) <= ps
    decreases |leaves|
  {
    var n := |leaves|;
    if n > 1 {
      FoldOrTyped(leaves[..n - 1], ps);
    }
  }
}
