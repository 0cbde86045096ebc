/** Expression trees and their evaluation: src/main/expr/evaluator.cpp,
    include/lsp-plug.in/expr/parser.h and src/main/expr/types.cpp. */
module Evaluator {
  import opened Basics
  import opened Names
  import opened Numerals

  /** A value; a float is its bit pattern, as arithmetic on it is not modelled. */
  datatype Value =
    | Undef
    | Null
    | Int(n: Int64)
    | Float(bits: nat)
    | Str(s: string)
    | Bool(b: bool)

  type Outcome = Result<Value, Failure>

  /** One call of `env->resolve`. */
  datatype Query = Query(name: Name, indexes: seq<Int64>)

  datatype Expr =
    | Constant(v: Value)
    | Resolve(name: Name, items: seq<Expr>)
    | Call(callee: string, items: seq<Expr>)
    | Unary(op: nat, left: Expr)
    | Binary(op: nat, left: Expr, right: Expr)
    | And(left: Expr, right: Expr)
    | Or(left: Expr, right: Expr)
    | StrCat(left: Expr, right: Expr)
    | StrRep(left: Expr, right: Expr)
    | Ternary(cond: Expr, left: Expr, right: Expr)

  /** What a strict binary operator makes of its left operand: a final outcome, or the
      operand to go on with once the right operand is evaluated. */
  datatype Entry = Done(out: Outcome) | GoOn(v: Value)

  /** The parts of the evaluator that are not modelled, as functions of their operands.
      A cast returns its status and the value it leaves; those here are asked for floats and
      texts only. `rawInt` and `rawBool` read the integer and the boolean member of a value that
      holds another type. */
  datatype Ops = Ops(
    castInt: Value -> (Status, Value),
    castBool: Value -> (Status, Value),
    rawInt: Value -> Int64,
    rawBool: Value -> bool,
    floatText: nat -> string,
    unary: (nat, Value) -> Outcome,
    enter: (nat, Value) -> Entry,
    combine: (nat, Value, Value) -> Outcome,
    call: (string, seq<Value>) -> Outcome
  )

  function IntOf(ops: Ops, v: Value): Int64 {
    if v.Int? then v.n else ops.rawInt(v)
  }

  function BoolOf(ops: Ops, v: Value): bool {
    if v.Bool? then v.b else ops.rawBool(v)
  }

  /** `cast_int`. */
  function ToInt(ops: Ops, v: Value): (Status, Value) {
    match v
    case Int(_) => (Success, v)
    case Bool(b) => (Success, Int(if b then 1 else 0))
    case Float(_) => ops.castInt(v)
    case Str(_) => ops.castInt(v)
    case _ => (Success, v)
  }

  /** `cast_bool`. */
  function ToBool(ops: Ops, v: Value): (Status, Value) {
    match v
    case Int(n) => (Success, Bool(n != 0))
    case Bool(_) => (Success, v)
    case Float(_) => ops.castBool(v)
    case Str(_) => ops.castBool(v)
    case _ => (Success, v)
  }

  /** `cast_string_ext`: the text of any value. */
  function TextOf(ops: Ops, v: Value): string {
    match v
    case Undef => "undef"
    case Null => "null"
    case Int(n) => SignedDecimal(n)
    case Float(bits) => ops.floatText(bits)
    case Str(s) => s
    case Bool(b) => if b then "true" else "false"
  }

  function Repeat(s: string, n: nat): string {
    if n == 0 then "" else s + Repeat(s, n - 1)
  }

  // ------------------------------------------------------------------
  // Evaluation over any environment: `step` answers a query in a state and
  // returns the state it leaves.

  function Eval<S>(ops: Ops, bound: bool, e: Expr, s: S, step: (S, Query) -> (Outcome, S)): (Outcome, S)
    decreases e, 1
  {
    match e
    case Constant(v) => (Ok(v), s)
    case Resolve(name, items) =>
      if !bound then (Ok(Undef), s)
      else
        var (args, s1) := EvalItems(ops, true, items, s, step);
        if args.Err? then (Err(args.error), s1)
        else
          var (r, s2) := step(s1, Query(name, Indexes(ops, args.value)));
          (if items == [] then MissingIsUndef(r) else r, s2)
    case Call(name, items) =>
      if !bound then (Ok(Undef), s)
      else
        var (args, s1) := EvalItems(ops, false, items, s, step);
        (if args.Err? then Err(args.error) else MissingIsUndef(ops.call(name, args.value)), s1)
    case Unary(op, left) =>
      var (l, s1) := Eval(ops, bound, left, s, step);
      (if l.Err? then l else ops.unary(op, l.value), s1)
    case Binary(op, left, right) =>
      var (l, s1) := Eval(ops, bound, left, s, step);
      if l.Err? then (l, s1)
      else
        var entry := ops.enter(op, l.value);
        if entry.Done? then (entry.out, s1)
        else
          var (r, s2) := Eval(ops, bound, right, s1, step);
          (if r.Err? then r else ops.combine(op, entry.v, r.value), s2)
    case And(_, _) => EvalShort(ops, bound, e, s, step)
    case Or(_, _) => EvalShort(ops, bound, e, s, step)
    case StrCat(left, right) =>
      var (l, s1) := Eval(ops, bound, left, s, step);
      if l.Err? then (l, s1)
      else
        var (r, s2) := Eval(ops, bound, right, s1, step);
        (if r.Err? then r else Ok(Str(TextOf(ops, l.value) + TextOf(ops, r.value))), s2)
    case StrRep(left, right) =>
      var (l, s1) := Eval(ops, bound, left, s, step);
      if l.Err? then (l, s1)
      else
        var (r, s2) := Eval(ops, bound, right, s1, step);
        (if r.Err? then r else Repeated(ops, TextOf(ops, l.value), r.value), s2)
    case Ternary(cond, left, right) =>
      var (c, s1) := Eval(ops, bound, cond, s, step);
      if c.Err? then (c, s1)
      else
        var v := ToBool(ops, c.value).1;
        if !v.Bool? then (Ok(Undef), s1)
        else Eval(ops, bound, if v.b then left else right, s1, step)
  }

  /** Short-circuiting: the right operand is evaluated unless the left one decides. */
  function EvalShort<S>(ops: Ops, bound: bool, e: Expr, s: S, step: (S, Query) -> (Outcome, S)): (Outcome, S)
    requires e.And? || e.Or?
    decreases e, 0
  {
    var (l, s1) := Eval(ops, bound, e.left, s, step);
    if l.Err? then (l, s1)
    else
      var (st, v) := ToBool(ops, l.value);
      if st != Success then (Err(st), s1)
      else if BoolOf(ops, v) == e.Or? then (Ok(v), s1)
      else
        var (r, s2) := Eval(ops, bound, e.right, s1, step);
        (if r.Err? then r else CastBool(ops, r.value), s2)
  }

  function CastBool(ops: Ops, v: Value): Outcome {
    var (st, w) := ToBool(ops, v);
    if st != Success then Err(st) else Ok(w)
  }

  /** The items of an index or argument list, left to right; an index is cast to an integer
      before the next one is evaluated. */
  function EvalItems<S>(ops: Ops, asIndex: bool, items: seq<Expr>, s: S,
                        step: (S, Query) -> (Outcome, S)): (Result<seq<Value>, Failure>, S)
    decreases items, 0
  {
    if items == [] then (Ok([]), s)
    else
      var (r, s1) := Eval(ops, true, items[0], s, step);
      if r.Err? then (Err(r.error), s1)
      else
        var (st, v) := if asIndex then ToInt(ops, r.value) else (Success, r.value);
        if st != Success then (Err(st), s1)
        else
          var (rest, s2) := EvalItems(ops, asIndex, items[1..], s1, step);
          (if rest.Err? then rest else Ok([v] + rest.value), s2)
  }

  function Indexes(ops: Ops, vs: seq<Value>): (r: seq<Int64>)
    ensures |r| == |vs|
  {
    seq(|vs|, i requires 0 <= i < |vs| => IntOf(ops, vs[i]))
  }

  function MissingIsUndef(r: Outcome): Outcome {
    if r == Err(NotFound) then Ok(Undef) else r
  }

  function Repeated(ops: Ops, text: string, count: Value): Outcome {
    var v := ToInt(ops, count).1;
    if v.Null? || v.Undef? || IntOf(ops, v) < 0 then Ok(Undef) else Ok(Str(Repeat(text, IntOf(ops, v))))
  }

  // ------------------------------------------------------------------
  // The names a tree resolves.

  function NamesOf(e: Expr): set<Name>
    decreases e, 1
  {
    match e
    case Constant(_) => {}
    case Resolve(name, items) => {name} + NamesOfAll(items)
    case Call(_, items) => NamesOfAll(items)
    case Unary(_, left) => NamesOf(left)
    case Binary(_, left, right) => NamesOf(left) + NamesOf(right)
    case And(left, right) => NamesOf(left) + NamesOf(right)
    case Or(left, right) => NamesOf(left) + NamesOf(right)
    case StrCat(left, right) => NamesOf(left) + NamesOf(right)
    case StrRep(left, right) => NamesOf(left) + NamesOf(right)
    case Ternary(cond, left, right) => NamesOf(cond) + NamesOf(left) + NamesOf(right)
  }

  function NamesOfAll(items: seq<Expr>): set<Name>
    decreases items, 0
  {
    if items == [] then {} else NamesOf(items[0]) + NamesOfAll(items[1..])
  }

  // ------------------------------------------------------------------
  // Simulation.

  /** Related states answer the queries for `names` alike and stay related. */
  ghost predicate Simulates<S(!new), T(!new)>(names: set<Name>, f: (S, Query) -> (Outcome, S),
                                              g: (T, Query) -> (Outcome, T), rel: (S, T) -> bool)
  {
    forall s: S, t: T, q: Query :: rel(s, t) && q.name in names ==> f(s, q).0 == g(t, q).0 && rel(f(s, q).1, g(t, q).1)
  }

  /** Evaluating a tree in related states gives the same outcome and leaves related states,
      when the queries it can make are answered alike. */
  lemma {:induction false} Simulation<S(!new), T(!new)>(ops: Ops, bound: bool, e: Expr, names: set<Name>,
      s: S, f: (S, Query) -> (Outcome, S), t: T, g: (T, Query) -> (Outcome, T), rel: (S, T) -> bool)
    requires rel(s, t) && NamesOf(e) <= names && Simulates(names, f, g, rel)
    ensures Eval(ops, bound, e, s, f).0 == Eval(ops, bound, e, t, g).0
    ensures rel(Eval(ops, bound, e, s, f).1, Eval(ops, bound, e, t, g).1)
    decreases e, 1
  {
    match e
    case Constant(_) =>
    case Resolve(_, items) =>
      SimulationItems(ops, true, items, names, s, f, t, g, rel);
    case Call(_, items) =>
      SimulationItems(ops, false, items, names, s, f, t, g, rel);
    case Unary(_, left) =>
      Simulation(ops, bound, left, names, s, f, t, g, rel);
    case Ternary(cond, left, right) =>
      Simulation(ops, bound, cond, names, s, f, t, g, rel);
      var s1, t1 := Eval(ops, bound, cond, s, f).1, Eval(ops, bound, cond, t, g).1;
      Simulation(ops, bound, left, names, s1, f, t1, g, rel);
      Simulation(ops, bound, right, names, s1, f, t1, g, rel);
    case _ =>
      Simulation(ops, bound, e.left, names, s, f, t, g, rel);
      var s1, t1 := Eval(ops, bound, e.left, s, f).1, Eval(ops, bound, e.left, t, g).1;
      Simulation(ops, bound, e.right, names, s1, f, t1, g, rel);
  }

  lemma {:induction false} SimulationItems<S(!new), T(!new)>(ops: Ops, asIndex: bool, items: seq<Expr>,
      names: set<Name>, s: S, f: (S, Query) -> (Outcome, S), t: T, g: (T, Query) -> (Outcome, T), rel: (S, T) -> bool)
    requires rel(s, t) && NamesOfAll(items) <= names && Simulates(names, f, g, rel)
    ensures EvalItems(ops, asIndex, items, s, f).0 == EvalItems(ops, asIndex, items, t, g).0
    ensures rel(EvalItems(ops, asIndex, items, s, f).1, EvalItems(ops, asIndex, items, t, g).1)
    decreases items, 0
  {
    if items != [] {
      Simulation(ops, true, items[0], names, s, f, t, g, rel);
      var s1, t1 := Eval(ops, true, items[0], s, f).1, Eval(ops, true, items[0], t, g).1;
      SimulationItems(ops, asIndex, items[1..], names, s1, f, t1, g, rel);
    }
  }
}
