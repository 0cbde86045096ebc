/** The evaluators of src/main/expr/evaluator.cpp, run against resolvers on the heap. */
module TreeEvaluation {
  import opened Basics
  import opened Names
  import opened Evaluator
  import E = Environments
  import opened VariableTables

  /** `env->resolve`. */
  method Ask(env: Resolver, name: Name, indexes: seq<Int64>) returns (r: Outcome)
    requires ValidResolver(env)
    modifies Footprint(env)
    ensures ValidResolver(env) && Footprint(env) == old(Footprint(env))
    ensures (r, LayersOf(env)) == E.Step(old(LayersOf(env)), Query(name, indexes))
  {
    match env {
      case NoResolver => r := Err(NotFound);
      case Fixed(answer) => r := answer(Query(name, indexes));
      case Table(table) => r := table.Resolve(name, indexes);
    }
  }

  method Evaluate(ops: Ops, e: Expr, env: Resolver) returns (r: Outcome)
    requires ValidResolver(env)
    modifies Footprint(env)
    decreases e, 1
    ensures ValidResolver(env) && Footprint(env) == old(Footprint(env))
    ensures (r, LayersOf(env)) == Eval(ops, env != NoResolver, e, old(LayersOf(env)), E.Step)
  {
    match e {
      case Constant(v) =>
        r := Ok(v);
      case Resolve(name, items) =>
        if env == NoResolver {
          return Ok(Undef);
        }
        var args := EvaluateItems(ops, true, items, env);
        if args.Err? {
          return Err(args.error);
        }
        r := Ask(env, name, Indexes(ops, args.value));
        if items == [] && r == Err(NotFound) {
          r := Ok(Undef);
        }
      case Call(name, items) =>
        if env == NoResolver {
          return Ok(Undef);
        }
        var args := EvaluateItems(ops, false, items, env);
        if args.Err? {
          return Err(args.error);
        }
        r := ops.call(name, args.value);
        if r == Err(NotFound) {
          r := Ok(Undef);
        }
      case Unary(op, left) =>
        r := Evaluate(ops, left, env);
        if r.Ok? {
          r := ops.unary(op, r.value);
        }
      case Binary(op, left, right) =>
        r := EvaluateBinary(ops, e, env);
      case And(left, right) =>
        r := EvaluateShort(ops, e, env);
      case Or(left, right) =>
        r := EvaluateShort(ops, e, env);
      case StrCat(left, right) =>
        r := Evaluate(ops, left, env);
        if r.Ok? {
          var text := TextOf(ops, r.value);
          r := Evaluate(ops, right, env);
          if r.Ok? {
            r := Ok(Str(text + TextOf(ops, r.value)));
          }
        }
      case StrRep(left, right) =>
        r := Evaluate(ops, left, env);
        if r.Ok? {
          var text := TextOf(ops, r.value);
          r := Evaluate(ops, right, env);
          if r.Ok? {
            r := RepeatText(ops, text, r.value);
          }
        }
      case Ternary(cond, left, right) =>
        r := Evaluate(ops, cond, env);
        if r.Ok? {
          var v := ToBool(ops, r.value).1;
          if !v.Bool? {
            r := Ok(Undef);
          } else {
            r := Evaluate(ops, if v.b then left else right, env);
          }
        }
    }
  }

  method EvaluateBinary(ops: Ops, e: Expr, env: Resolver) returns (r: Outcome)
    requires ValidResolver(env) && e.Binary?
    modifies Footprint(env)
    decreases e, 0
    ensures ValidResolver(env) && Footprint(env) == old(Footprint(env))
    ensures (r, LayersOf(env)) == Eval(ops, env != NoResolver, e, old(LayersOf(env)), E.Step)
  {
    r := Evaluate(ops, e.left, env);
    if r.Err? {
      return;
    }
    var entry := ops.enter(e.op, r.value);
    if entry.Done? {
      return entry.out;
    }
    r := Evaluate(ops, e.right, env);
    if r.Ok? {
      r := ops.combine(e.op, entry.v, r.value);
    }
  }

  /** `eval_and` and `eval_or`. */
  method EvaluateShort(ops: Ops, e: Expr, env: Resolver) returns (r: Outcome)
    requires ValidResolver(env) && (e.And? || e.Or?)
    modifies Footprint(env)
    decreases e, 0
    ensures ValidResolver(env) && Footprint(env) == old(Footprint(env))
    ensures (r, LayersOf(env)) == EvalShort(ops, env != NoResolver, e, old(LayersOf(env)), E.Step)
  {
    r := Evaluate(ops, e.left, env);
    if r.Err? {
      return;
    }
    r := CastBool(ops, r.value);
    if r.Err? || BoolOf(ops, r.value) == e.Or? {
      return;
    }
    r := Evaluate(ops, e.right, env);
    if r.Ok? {
      r := CastBool(ops, r.value);
    }
  }

  /** A list whose first items have the values `vs`. */
  function Prefixed(vs: seq<Value>,
                    rest: (Result<seq<Value>, Failure>, E.Layers)): (Result<seq<Value>, Failure>, E.Layers)
  {
    (if rest.0.Err? then rest.0 else Ok(vs + rest.0.value), rest.1)
  }

  method EvaluateItems(ops: Ops, asIndex: bool, items: seq<Expr>, env: Resolver)
    returns (args: Result<seq<Value>, Failure>)
    requires ValidResolver(env) && env != NoResolver
    modifies Footprint(env)
    decreases items, 0
    ensures ValidResolver(env) && Footprint(env) == old(Footprint(env))
    ensures (args, LayersOf(env)) == EvalItems(ops, asIndex, items, old(LayersOf(env)), E.Step)
  {
    var vs: seq<Value> := [];
    assert items[0..] == items;
    PrefixedMore([], Undef, EvalItems(ops, asIndex, items, LayersOf(env), E.Step));
    for i := 0 to |items|
      invariant ValidResolver(env) && Footprint(env) == old(Footprint(env))
      invariant EvalItems(ops, asIndex, items, old(LayersOf(env)), E.Step)
             == Prefixed(vs, EvalItems(ops, asIndex, items[i..], LayersOf(env), E.Step))
    {
      assert items[i..][0] == items[i] && items[i..][1..] == items[i + 1..];
      ghost var rest := EvalItems(ops, asIndex, items[i..], LayersOf(env), E.Step);
      var r := Evaluate(ops, items[i], env);
      if r.Err? {
        return Err(r.error);
      }
      var (st, v) := if asIndex then ToInt(ops, r.value) else (Success, r.value);
      if st != Success {
        return Err(st);
      }
      PrefixedMore(vs, v, EvalItems(ops, asIndex, items[i + 1..], LayersOf(env), E.Step));
      vs := vs + [v];
    }
    assert items[|items|..] == [] && vs + [] == vs;
    return Ok(vs);
  }

  lemma PrefixedMore(vs: seq<Value>, v: Value, rest: (Result<seq<Value>, Failure>, E.Layers))
    ensures Prefixed([], rest) == rest
    ensures Prefixed(vs, Prefixed([v], rest)) == Prefixed(vs + [v], rest)
  {
    if rest.0.Ok? {
      assert [] + rest.0.value == rest.0.value;
      assert vs + ([v] + rest.0.value) == vs + [v] + rest.0.value;
    }
  }

  // ------------------------------------------------------------------
  // String repetition.

  method RepeatText(ops: Ops, text: string, count: Value) returns (r: Outcome)
    ensures r == Repeated(ops, text, count)
  {
    var v := ToInt(ops, count).1;
    if v.Null? || v.Undef? || IntOf(ops, v) < 0 {
      return Ok(Undef);
    }
    var s, _, _ := RepeatByDoubling(text, IntOf(ops, v));
    return Ok(Str(s));
  }

  function BitLength(n: nat): nat {
    if n == 0 then 0 else 1 + BitLength(n / 2)
  }

  lemma {:induction false} RepeatAdd(s: string, m: nat, n: nat)
    ensures Repeat(s, m) + Repeat(s, n) == Repeat(s, m + n)
  {
    if m > 0 {
      RepeatAdd(s, m - 1, n);
      assert Repeat(s, m) + Repeat(s, n) == s + (Repeat(s, m - 1) + Repeat(s, n));
    }
  }

  /** The loop of `eval_strrep`: the buffer doubles while the count halves. The number of
      appends and the largest length of the buffer are reported. */
  method RepeatByDoubling(s: string, n: nat) returns (r: string, appends: nat, peak: nat)
    ensures r == Repeat(s, n)
    ensures appends <= 2 * BitLength(n)
    ensures n > 0 ==> peak <= |r|
  {
    var tmp, x := s, n;
    r, appends, peak := "", 0, |s|;
    ghost var done: nat, weight: nat := 0, 1;
    assert Repeat(s, 1) == s + Repeat(s, 0) == s;
    if n > 0 {
      BufferFits(s, 1, n, 0, n);
    }
    while x != 0
      invariant r == Repeat(s, done) && tmp == Repeat(s, weight)
      invariant done + weight * x == n
      invariant n > 0 ==> peak <= |Repeat(s, n)|
      invariant appends + 2 * BitLength(x) <= 2 * BitLength(n)
    {
      var half, bit := x / 2, x % 2;
      Halved(weight, x);
      if bit == 1 {
        RepeatAdd(s, done, weight);
        r := r + tmp;
        done := done + weight;
        appends := appends + 1;
      }
      x := half;
      if x != 0 {
        RepeatAdd(s, weight, weight);
        tmp := tmp + tmp;
        weight := 2 * weight;
        appends := appends + 1;
        BufferFits(s, weight, x, done, n);
        peak := |tmp|;
      }
    }
  }

  lemma Halved(weight: nat, x: nat)
    ensures weight * x == weight * (x % 2) + 2 * weight * (x / 2)
  {
    assert x == x % 2 + 2 * (x / 2);
    assert weight * x == weight * (x % 2) + weight * (2 * (x / 2));
  }

  lemma BufferFits(s: string, weight: nat, x: nat, done: nat, n: nat)
    requires x > 0 && done + weight * x == n
    ensures |Repeat(s, weight)| <= |Repeat(s, n)|
  {
    assert weight * x == weight + weight * (x - 1) && weight * (x - 1) >= 0;
    RepeatAdd(s, weight, n - weight);
  }
}
