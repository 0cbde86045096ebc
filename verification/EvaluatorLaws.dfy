/** What the operators of src/main/expr/evaluator.cpp make of the outcomes of their operands, over
    every environment, and which of their operands they evaluate. */
module EvaluatorLaws {
  import opened Basics
  import opened Names
  import opened Numerals
  import opened Evaluator
  import E = Environments

  type Step<!S> = (S, Query) -> (Outcome, S)

  /** A tree gives a value in a state, and leaves another state. */
  predicate Gives<S(==)>(ops: Ops, bound: bool, e: Expr, s: S, step: Step<S>, v: Value, next: S) {
    Eval(ops, bound, e, s, step) == (Ok(v), next)
  }

  predicate Fails<S(==)>(ops: Ops, bound: bool, e: Expr, s: S, step: Step<S>, st: Failure, next: S) {
    Eval(ops, bound, e, s, step) == (Err(st), next)
  }

  // ------------------------------------------------------------------
  // Truth values and counts.

  /** Whether a value counts as true, if it has a truth value. */
  function Truth(ops: Ops, v: Value): Option<bool> {
    match v
    case Bool(b) => Some(b)
    case Int(n) => Some(n != 0)
    case Undef => None
    case Null => None
    case _ => if ops.castBool(v).0 == Success && ops.castBool(v).1.Bool? then Some(ops.castBool(v).1.b) else None
  }

  /** The number that a value stands for, if it has one. */
  function Count(ops: Ops, v: Value): Option<Int64> {
    match v
    case Int(n) => Some(n)
    case Bool(b) => if b then Some(1) else Some(0)
    case Undef => None
    case Null => None
    case _ => if ops.castInt(v).0 == Success && ops.castInt(v).1.Int? then Some(ops.castInt(v).1.n) else None
  }

  /** A number is true exactly if it is not zero, and a truth value counts as 1 or 0. */
  lemma CastsAgree(ops: Ops, v: Value)
    ensures Truth(ops, v).Some? ==> ToBool(ops, v) == (Success, Bool(Truth(ops, v).value))
    ensures Count(ops, v).Some? ==> ToInt(ops, v) == (Success, Int(Count(ops, v).value))
    ensures v.Undef? || v.Null? ==> ToBool(ops, v) == (Success, v) == ToInt(ops, v)
    ensures v.Bool? || v.Int? ==> ToBool(ops, ToInt(ops, v).1) == ToBool(ops, v)
  {
  }

  // ------------------------------------------------------------------
  // Choices.

  /** The condition chooses the operand, and the other one is not evaluated. */
  lemma TernaryChooses<S>(ops: Ops, bound: bool, e: Expr, s: S, step: Step<S>, v: Value, s1: S)
    requires e.Ternary? && Gives(ops, bound, e.cond, s, step, v, s1)
    ensures Truth(ops, v) == Some(true) ==> Eval(ops, bound, e, s, step) == Eval(ops, bound, e.left, s1, step)
    ensures Truth(ops, v) == Some(false) ==> Eval(ops, bound, e, s, step) == Eval(ops, bound, e.right, s1, step)
    ensures v.Undef? || v.Null? ==> Gives(ops, bound, e, s, step, Undef, s1)
  {
    CastsAgree(ops, v);
  }

  /** The left operand of a conjunction or disjunction decides alone if it is the value that the
      operator cannot change. */
  predicate Decides(e: Expr, x: bool)
    requires e.And? || e.Or?
  {
    if e.And? then !x else x
  }

  lemma LogicDecided<S>(ops: Ops, bound: bool, e: Expr, s: S, step: Step<S>, a: Value, s1: S)
    requires e.And? || e.Or?
    requires Gives(ops, bound, e.left, s, step, a, s1) && Truth(ops, a).Some? && Decides(e, Truth(ops, a).value)
    ensures Gives(ops, bound, e, s, step, Bool(e.Or?), s1)
  {
    CastsAgree(ops, a);
  }

  /** The truth tables. */
  lemma LogicTable<S>(ops: Ops, bound: bool, e: Expr, s: S, step: Step<S>, a: Value, s1: S, b: Value, s2: S)
    requires e.And? || e.Or?
    requires Gives(ops, bound, e.left, s, step, a, s1) && Gives(ops, bound, e.right, s1, step, b, s2)
    requires Truth(ops, a).Some? && Truth(ops, b).Some?
    ensures var x, y := Truth(ops, a).value, Truth(ops, b).value;
      && (e.And? ==> Gives(ops, bound, e, s, step, Bool(x && y), if x then s2 else s1))
      && (e.Or? ==> Gives(ops, bound, e, s, step, Bool(x || y), if x then s1 else s2))
  {
    CastsAgree(ops, a);
    CastsAgree(ops, b);
  }

  /** A failing operand, or one that cannot be cast, fails the operator if it is evaluated. */
  lemma LogicFails<S>(ops: Ops, bound: bool, e: Expr, s: S, step: Step<S>, a: Value, s1: S, st: Failure, s2: S)
    requires e.And? || e.Or?
    ensures Fails(ops, bound, e.left, s, step, st, s1) ==> Fails(ops, bound, e, s, step, st, s1)
    ensures Gives(ops, bound, e.left, s, step, a, s1) && (a.Str? || a.Float?) && ops.castBool(a).0 == st
        ==> Fails(ops, bound, e, s, step, st, s1)
    ensures Gives(ops, bound, e.left, s, step, a, s1) && Truth(ops, a).Some? && !Decides(e, Truth(ops, a).value)
        && Fails(ops, bound, e.right, s1, step, st, s2)
        ==> Fails(ops, bound, e, s, step, st, s2)
  {
    CastsAgree(ops, a);
  }

  // ------------------------------------------------------------------
  // Strict operators.

  /** The text is `n` copies of `s`: it has their length, starts with `s` and repeats itself. */
  predicate Copies(text: string, s: string, n: nat) {
    && |text| == n * |s|
    && (n > 0 ==> s <= text)
    && forall i :: |s| <= i < |text| ==> text[i] == text[i - |s|]
  }

  lemma {:induction false} RepeatCopies(s: string, n: nat)
    ensures Copies(Repeat(s, n), s, n)
    decreases n
  {
    if n > 0 {
      var text, fewer := Repeat(s, n), Repeat(s, n - 1);
      RepeatCopies(s, n - 1);
      assert n * |s| == |s| + (n - 1) * |s|;
      forall i | |s| <= i < |text| ensures text[i] == text[i - |s|] {
        assert text[i] == fewer[i - |s|];
        if i < 2 * |s| {
          assert n > 1 && text[i - |s|] == s[i - |s|];
        } else {
          assert text[i - |s|] == fewer[i - |s| - |s|];
        }
      }
    }
  }

  /** A text is repeated as often as the count says; a count below zero or without a number gives
      an undefined value. */
  lemma RepetitionLaw<S>(ops: Ops, bound: bool, e: Expr, s: S, step: Step<S>, a: Value, s1: S, b: Value, s2: S)
    requires e.StrRep? && Gives(ops, bound, e.left, s, step, a, s1) && Gives(ops, bound, e.right, s1, step, b, s2)
    ensures b.Undef? || b.Null? || (Count(ops, b).Some? && Count(ops, b).value < 0)
        ==> Gives(ops, bound, e, s, step, Undef, s2)
    ensures Count(ops, b).Some? && Count(ops, b).value >= 0
        ==> exists t :: Copies(t, TextOf(ops, a), Count(ops, b).value) && Gives(ops, bound, e, s, step, Str(t), s2)
  {
    CastsAgree(ops, b);
    var n := Count(ops, b);
    if n.Some? && n.value >= 0 {
      RepeatCopies(TextOf(ops, a), n.value);
    }
  }

  /** Concatenation writes a missing value as a word, a boolean as one, and an integer in decimal. */
  lemma ConcatenationLaw<S>(ops: Ops, bound: bool, e: Expr, s: S, step: Step<S>, a: Value, s1: S, b: Value, s2: S)
    requires e.StrCat? && Gives(ops, bound, e.left, s, step, a, s1) && Gives(ops, bound, e.right, s1, step, b, s2)
    ensures Gives(ops, bound, e, s, step, Str(Word(ops, a) + Word(ops, b)), s2)
  {
  }

  function Word(ops: Ops, v: Value): string {
    if v.Str? then v.s
    else if v.Int? then SignedDecimal(v.n)
    else if v.Float? then ops.floatText(v.bits)
    else if v.Undef? then "undef"
    else if v.Null? then "null"
    else if v == Bool(true) then "true"
    else "false"
  }

  /** A strict operator takes its operands from left to right. */
  lemma StrictLaw<S>(ops: Ops, bound: bool, e: Expr, s: S, step: Step<S>, a: Value, s1: S, b: Value, s2: S)
    requires (e.Unary? || e.Binary?) && Gives(ops, bound, e.left, s, step, a, s1)
    ensures e.Unary? ==> Eval(ops, bound, e, s, step) == (ops.unary(e.op, a), s1)
    ensures e.Binary? && ops.enter(e.op, a).Done? ==> Eval(ops, bound, e, s, step) == (ops.enter(e.op, a).out, s1)
    ensures e.Binary? && ops.enter(e.op, a).GoOn? && Gives(ops, bound, e.right, s1, step, b, s2)
        ==> Eval(ops, bound, e, s, step) == (ops.combine(e.op, ops.enter(e.op, a).v, b), s2)
  {
  }

  /** The failure of the first operand ends every operator. */
  lemma FirstFails<S>(ops: Ops, bound: bool, e: Expr, s: S, step: Step<S>, st: Failure, s1: S)
    requires e.Unary? || e.Binary? || e.StrCat? || e.StrRep? || e.Ternary?
    requires Fails(ops, bound, if e.Ternary? then e.cond else e.left, s, step, st, s1)
    ensures Fails(ops, bound, e, s, step, st, s1)
  {
  }

  lemma SecondFails<S>(ops: Ops, bound: bool, e: Expr, s: S, step: Step<S>, a: Value, s1: S, st: Failure, s2: S)
    requires e.StrCat? || e.StrRep? || (e.Binary? && ops.enter(e.op, a).GoOn?)
    requires Gives(ops, bound, e.left, s, step, a, s1) && Fails(ops, bound, e.right, s1, step, st, s2)
    ensures Fails(ops, bound, e, s, step, st, s2)
  {
  }

  // ------------------------------------------------------------------
  // Items and queries.

  /** Lists of items one behind another. */
  function Both<S>(first: (Result<seq<Value>, Failure>, S), more: (Result<seq<Value>, Failure>, S)):
    (Result<seq<Value>, Failure>, S)
  {
    if first.0.Err? then first
    else (if more.0.Err? then more.0 else Ok(first.0.value + more.0.value), more.1)
  }

  lemma {:induction false} ItemsAppend<S>(ops: Ops, asIndex: bool, a: seq<Expr>, b: seq<Expr>, s: S, step: Step<S>)
    ensures var first := EvalItems(ops, asIndex, a, s, step);
      EvalItems(ops, asIndex, a + b, s, step) == Both(first, EvalItems(ops, asIndex, b, first.1, step))
    decreases |a|
  {
    var rest := EvalItems(ops, asIndex, b, EvalItems(ops, asIndex, a, s, step).1, step);
    if a == [] {
      assert a + b == b;
      assert rest.0.Ok? ==> [] + rest.0.value == rest.0.value;
    } else {
      assert (a + b)[1..] == a[1..] + b && (a + b)[0] == a[0];
      var (r, s1) := Eval(ops, true, a[0], s, step);
      if r.Ok? {
        var (st, v) := if asIndex then ToInt(ops, r.value) else (Success, r.value);
        ItemsAppend(ops, asIndex, a[1..], b, s1, step);
        var more := EvalItems(ops, asIndex, a[1..], s1, step);
        if more.0.Ok? && rest.0.Ok? {
          assert [v] + (more.0.value + rest.0.value) == [v] + more.0.value + rest.0.value;
        }
      }
    }
  }

  /** An item gives its value to a call, and its number to an index. */
  lemma OneItem<S>(ops: Ops, asIndex: bool, e: Expr, s: S, step: Step<S>, v: Value, s1: S, st: Failure)
    ensures Gives(ops, true, e, s, step, v, s1) && !asIndex ==> EvalItems(ops, asIndex, [e], s, step) == (Ok([v]), s1)
    ensures Gives(ops, true, e, s, step, v, s1) && asIndex && Count(ops, v).Some?
        ==> EvalItems(ops, asIndex, [e], s, step) == (Ok([Int(Count(ops, v).value)]), s1)
    ensures Gives(ops, true, e, s, step, v, s1) && asIndex && (v.Str? || v.Float?) && ops.castInt(v).0 == st
        ==> EvalItems(ops, asIndex, [e], s, step) == (Err(st), s1)
    ensures Fails(ops, true, e, s, step, st, s1) ==> EvalItems(ops, asIndex, [e], s, step) == (Err(st), s1)
  {
    assert [e][1..] == [];
    CastsAgree(ops, v);
    var w := if asIndex then ToInt(ops, v).1 else v;
    assert [w] + [] == [w];
  }

  function Integers(ns: seq<Int64>): (r: seq<Value>)
    ensures |r| == |ns| && forall i :: 0 <= i < |ns| ==> r[i] == Int(ns[i])
  {
    seq(|ns|, i requires 0 <= i < |ns| => Int(ns[i]))
  }

  /** A variable is asked for once, under its name and its indexes in their order, when these have
      been evaluated. Only a variable without indexes may be missing. */
  lemma ResolveAsks<S>(ops: Ops, e: Expr, s: S, step: Step<S>, ns: seq<Int64>, s1: S)
    requires e.Resolve? && EvalItems(ops, true, e.items, s, step) == (Ok(Integers(ns)), s1)
    ensures var (r, next) := step(s1, Query(e.name, ns));
      Eval(ops, true, e, s, step)
      == (if e.items == [] && r == Err(NotFound) then Ok(Undef) else r, next)
  {
    assert Indexes(ops, Integers(ns)) == ns;
  }

  lemma CallCalls<S>(ops: Ops, e: Expr, s: S, step: Step<S>, vs: seq<Value>, s1: S)
    requires e.Call? && EvalItems(ops, false, e.items, s, step) == (Ok(vs), s1)
    ensures var r := ops.call(e.callee, vs);
      Eval(ops, true, e, s, step) == (if r == Err(NotFound) then Ok(Undef) else r, s1)
  {
  }

  /** Failing items, and trees without an environment. */
  lemma NothingAsked<S>(ops: Ops, e: Expr, s: S, step: Step<S>, st: Failure, s1: S)
    requires e.Resolve? || e.Call?
    ensures EvalItems(ops, e.Resolve?, e.items, s, step) == (Err(st), s1) ==> Fails(ops, true, e, s, step, st, s1)
    ensures Gives(ops, false, e, s, step, Undef, s)
  {
  }

  // ------------------------------------------------------------------
  // Which operands are evaluated.

  /** The queries that a tree makes, in their order. */
  function LogOf<S>(ops: Ops, bound: bool, e: Expr, s: S, step: Step<S>): seq<Query> {
    Eval(ops, bound, e, (s, []), E.Logged(step)).1.1
  }

  /** A log goes on behind what has been logged before. */
  lemma LogContinues<S(!new)>(ops: Ops, bound: bool, e: Expr, s: S, step: Step<S>, log: seq<Query>)
    ensures var (r, next) := Eval(ops, bound, e, s, step);
      Eval(ops, bound, e, (s, log), E.Logged(step)) == (r, (next, log + LogOf(ops, bound, e, s, step)))
  {
    E.QueriesAreNamed(ops, bound, e, s, step);
    var f := E.Logged(step);
    var rel := (x: (S, seq<Query>), y: (S, seq<Query>)) => x.0 == y.0 && x.1 == log + y.1;
    assert log + [] == log;
    forall x: (S, seq<Query>), y: (S, seq<Query>), q: Query | rel(x, y)
      ensures f(x, q).0 == f(y, q).0 && rel(f(x, q).1, f(y, q).1)
    {
      assert log + (y.1 + [q]) == log + y.1 + [q];
    }
    Simulation(ops, bound, e, NamesOf(e), (s, log), f, (s, []), f, rel);
    var x, y := Eval(ops, bound, e, (s, log), f), Eval(ops, bound, e, (s, []), f);
    assert x.0 == y.0 && x.1.0 == y.1.0 && x.1.1 == log + y.1.1;
    assert x == (x.0, (x.1.0, x.1.1));
  }

  /** The right operand of a conjunction or disjunction makes its queries exactly if the left one
      does not decide, and the operands of a choice exactly if they are chosen. */
  lemma LogicLog<S(!new)>(ops: Ops, bound: bool, e: Expr, s: S, step: Step<S>, a: Value, s1: S)
    requires (e.And? || e.Or?) && Gives(ops, bound, e.left, s, step, a, s1) && Truth(ops, a).Some?
    ensures LogOf(ops, bound, e, s, step)
         == LogOf(ops, bound, e.left, s, step)
          + if Decides(e, Truth(ops, a).value) then [] else LogOf(ops, bound, e.right, s1, step)
  {
    var log := LogOf(ops, bound, e.left, s, step);
    CastsAgree(ops, a);
    LogContinues(ops, bound, e.left, s, step, []);
    LogContinues(ops, bound, e.right, s1, step, log);
    assert [] + log == log && log + [] == log;
    var f := E.Logged(step);
    assert Eval(ops, bound, e.left, (s, []), f) == (Ok(a), (s1, log));
    assert Eval(ops, bound, e, (s, []), f) == EvalShort(ops, bound, e, (s, []), f);
  }

  lemma TernaryLog<S(!new)>(ops: Ops, bound: bool, e: Expr, s: S, step: Step<S>, v: Value, s1: S)
    requires e.Ternary? && Gives(ops, bound, e.cond, s, step, v, s1) && Truth(ops, v).Some?
    ensures LogOf(ops, bound, e, s, step)
         == LogOf(ops, bound, e.cond, s, step)
          + LogOf(ops, bound, if Truth(ops, v).value then e.left else e.right, s1, step)
  {
    CastsAgree(ops, v);
    LogContinues(ops, bound, e.cond, s, step, []);
    LogContinues(ops, bound, if Truth(ops, v).value then e.left else e.right, s1, step,
                 LogOf(ops, bound, e.cond, s, step));
  }

  /** The queries of the left operand come before those of the right one. */
  lemma StrictLog<S(!new)>(ops: Ops, bound: bool, e: Expr, s: S, step: Step<S>, a: Value, s1: S)
    requires e.StrCat? || e.StrRep? || (e.Binary? && ops.enter(e.op, a).GoOn?)
    requires Gives(ops, bound, e.left, s, step, a, s1)
    ensures LogOf(ops, bound, e, s, step)
         == LogOf(ops, bound, e.left, s, step) + LogOf(ops, bound, e.right, s1, step)
  {
    LogContinues(ops, bound, e.left, s, step, []);
    LogContinues(ops, bound, e.right, s1, step, LogOf(ops, bound, e.left, s, step));
  }
}
