/** A small expression tree standing in for `System.Linq.Expressions`: the
    accessors `x => x.Field` a caller passes in, the `Contains` calls built from
    them and the `OrElse` nodes that join those calls. */
module Expressions {
  import opened Results
  import opened Text

  /** A lambda parameter. Two parameters are the same parameter exactly when their
      ids are equal, as `ParameterExpression`s are compared by reference. */
  type ParamId = nat
  type Field = string

  /** A record maps field names to their values; a field missing from the map is null. */
  type Record = map<Field, string>

  /** The records bound to the parameters in scope. */
  type Env = map<ParamId, Record>

  datatype Expr =
    | Param(id: ParamId)
    | Member(target: Expr, field: Field)
    | Const(text: string)
    | Contains(subject: Expr, term: Expr)
    | OrElse(left: Expr, right: Expr)

  /** A one-parameter lambda `param => body`, such as `Expression<Func<T, string>>`. */
  datatype Lambda = Lambda(param: ParamId, body: Expr)

  /** Static types: the record type `T`, `string` and `bool`. */
  datatype Ty = RecordTy | TextTy | BoolTy

  /** Run-time values. `NullV` is a null string; `Stuck` is what an expression the
      type checker would reject, or one with an unbound parameter, evaluates to. */
  datatype Value = RecordV(rec: Record) | TextV(text: string) | NullV | BoolV(b: bool) | Stuck

  function FreeParams(e: Expr): set<ParamId> {
    match e
    case Param(id) => {id}
    case Member(target, _) => FreeParams(target)
    case Const(_) => {}
    case Contains(subject, term) => FreeParams(subject) + FreeParams(term)
    case OrElse(left, right) => FreeParams(left) + FreeParams(right)
  }

  /** The type the C# compiler gives an expression, or `None` when it rejects it.
      The argument of `Contains` is restricted to a constant: that is the only form
      the search builds, and a null argument would throw instead of evaluating. */
  function TypeOf(e: Expr): Option<Ty> {
    match e
    case Param(_) => Some(RecordTy)
    case Member(target, _) => if TypeOf(target) == Some(RecordTy) then Some(TextTy) else None
    case Const(_) => Some(TextTy)
    case Contains(subject, term) =>
      if TypeOf(subject) == Some(TextTy) && term.Const? then Some(BoolTy) else None
    case OrElse(left, right) =>
      if TypeOf(left) == Some(BoolTy) && TypeOf(right) == Some(BoolTy) then Some(BoolTy) else None
  }

  predicate HasType(v: Value, ty: Ty) {
    match ty
    case RecordTy => v.RecordV?
    case TextTy => v.TextV? || v.NullV?
    case BoolTy => v.BoolV?
  }

  /** Interprets an expression. `Contains` is ordinal substring search and a null
      subject never matches; `OrElse` short-circuits. */
  function Eval(e: Expr, env: Env): Value {
    match e
    case Param(id) => if id in env then RecordV(env[id]) else Stuck
    case Member(target, f) =>
      var t := Eval(target, env);
      if t.RecordV? then (if f in t.rec then TextV(t.rec[f]) else NullV) else Stuck
    case Const(s) => TextV(s)
    case Contains(subject, term) =>
      var s := Eval(subject, env);
      var t := Eval(term, env);
      if s.TextV? && t.TextV? then BoolV(ContainsText(s.text, t.text))
      else if s.NullV? && t.TextV? then BoolV(false)
      else Stuck
    case OrElse(left, right) =>
      var l := Eval(left, env);
      if l == BoolV(true) then BoolV(true)
      else if l == BoolV(false) then (var r := Eval(right, env); if r.BoolV? then r else Stuck)
      else Stuck
  }

  /** Replaces every reference to parameter `from` by parameter `to`, leaving the
      rest of the tree as it is. */
  function Swap(e: Expr, from: ParamId, to: ParamId): Expr {
    match e
    case Param(id) => if id == from then Param(to) else Param(id)
    case Member(target, f) => Member(Swap(target, from, to), f)
    case Const(s) => Const(s)
    case Contains(subject, term) => Contains(Swap(subject, from, to), Swap(term, from, to))
    case OrElse(left, right) => OrElse(Swap(left, from, to), Swap(right, from, to))
  }

  /** Swapping keeps the type and moves `from` to `to` among the free parameters. */
  lemma {:induction false} SwapTypeAndFreeParams(e: Expr, from: ParamId, to: ParamId)
    ensures TypeOf(Swap(e, from, to)) == TypeOf(e)
    ensures FreeParams(Swap(e, from, to)) ==
              if from in FreeParams(e) then FreeParams(e) - {from} + {to} else FreeParams(e)
  {
    match e
    case Param(_) =>
    case Member(target, _) => SwapTypeAndFreeParams(target, from, to);
    case Const(_) =>
    case Contains(subject, term) =>
      SwapTypeAndFreeParams(subject, from, to);
      SwapTypeAndFreeParams(term, from, to);
    case OrElse(left, right) =>
      SwapTypeAndFreeParams(left, from, to);
      SwapTypeAndFreeParams(right, from, to);
  }

  /** Rebinding applied to a whole lambda: its parameter and its body. */
  function SwapLambda(lam: Lambda, from: ParamId, to: ParamId): Lambda {
    Lambda(if lam.param == from then to else lam.param, Swap(lam.body, from, to))
  }

  /** An accessor `x => ...` the C# compiler accepts as an `Expression<Func<T, string>>`. */
  predicate WellTypedAccessor(acc: Lambda) {
    TypeOf(acc.body) == Some(TextTy) && FreeParams(acc.body) <= {acc.param}
  }

  /** The string an accessor reads from a record. */
  function AccessorValue(acc: Lambda, r: Record): Value {
    Eval(acc.body, map[acc.param := r])
  }

  /** The environment in which `from` is bound to whatever `to` is bound to. */
  function Rebind(env: Env, from: ParamId, to: ParamId): Env {
    if to in env then env[from := env[to]] else env - {from}
  }

  /** Evaluation reads only the parameters that occur free. */
  lemma {:induction false} EvalFrame(e: Expr, env1: Env, env2: Env)
    requires forall x :: x in FreeParams(e) ==> (x in env1 <==> x in env2)
    requires forall x :: x in FreeParams(e) && x in env1 ==> env1[x] == env2[x]
    ensures Eval(e, env1) == Eval(e, env2)
  {
    match e
    case Param(_) =>
    case Member(target, _) => EvalFrame(target, env1, env2);
    case Const(_) =>
    case Contains(subject, term) =>
      EvalFrame(subject, env1, env2);
      EvalFrame(term, env1, env2);
    case OrElse(left, right) =>
      EvalFrame(left, env1, env2);
      EvalFrame(right, env1, env2);
  }

  /** Substitution lemma: evaluating the swapped tree is evaluating the original
      with `from` bound to the value of `to`. */
  lemma {:induction false} EvalSwap(e: Expr, from: ParamId, to: ParamId, env: Env)
    ensures Eval(Swap(e, from, to), env) == Eval(e, Rebind(env, from, to))
  {
    match e
    case Param(_) =>
    case Member(target, _) => EvalSwap(target, from, to, env);
    case Const(_) =>
    case Contains(subject, term) =>
      EvalSwap(subject, from, to, env);
      EvalSwap(term, from, to, env);
    case OrElse(left, right) =>
      EvalSwap(left, from, to, env);
      EvalSwap(right, from, to, env);
  }

  /** Type soundness: a well-typed tree whose parameters are all bound evaluates to
      a value of its type, never to `Stuck`. */
  lemma {:induction false} EvalWellTyped(e: Expr, env: Env)
    requires TypeOf(e).Some? && FreeParams(e) <= env.Keys
    ensures HasType(Eval(e, env), TypeOf(e).value)
  {
    match e
    case Param(_) =>
    case Member(target, _) => EvalWellTyped(target, env);
    case Const(_) =>
    case Contains(subject, term) =>
      EvalWellTyped(subject, env);
      EvalWellTyped(term, env);
    case OrElse(left, right) =>
      EvalWellTyped(left, env);
      EvalWellTyped(right, env);
  }

  /** Swapping a parameter for itself changes nothing. */
  lemma {:induction false} SwapSelf(e: Expr, p: ParamId)
    ensures Swap(e, p, p) == e
  {
    match e
    case Param(_) =>
    case Member(target, _) => SwapSelf(target, p);
    case Const(_) =>
    case Contains(subject, term) =>
      SwapSelf(subject, p);
      SwapSelf(term, p);
    case OrElse(left, right) =>
      SwapSelf(left, p);
      SwapSelf(right, p);
  }

  /** Rebinding an accessor to the shared parameter `q` reads the same string from
      a record as the original accessor, and leaves `q` as its only free parameter. */
  lemma SwappedAccessorReadsSameValue(acc: Lambda, q: ParamId, r: Record)
    requires WellTypedAccessor(acc)
    ensures SwapLambda(acc, acc.param, q).param == q
    ensures FreeParams(SwapLambda(acc, acc.param, q).body) <= {q}
    ensures TypeOf(SwapLambda(acc, acc.param, q).body) == Some(TextTy)
    ensures Eval(SwapLambda(acc, acc.param, q).body, map[q := r]) == AccessorValue(acc, r)
  {
    var env := map[q := r];
    SwapTypeAndFreeParams(acc.body, acc.param, q);
    EvalSwap(acc.body, acc.param, q, env);
    EvalFrame(acc.body, Rebind(env, acc.param, q), map[acc.param := r]);
  }
}
