/** Expressions with several roots and their dependencies: src/main/expr/Expression.cpp. */
module Expressions {
  import opened Basics
  import opened Names
  import opened Evaluator
  import E = Environments
  import opened VariableTables
  import T = TreeEvaluation

  /** An expression tree, null for an empty one, and its last result. */
  datatype Root = Root(expr: Option<Expr>, result: Value)

  // ------------------------------------------------------------------
  // Dependencies.

  function WithDependency(deps: seq<Name>, name: Name): seq<Name> {
    if name in deps then deps else deps + [name]
  }

  /** The dependencies once a tree is scanned, in the order of the scan. */
  function Scanned(deps: seq<Name>, e: Expr): seq<Name>
    decreases e, 1
  {
    match e
    case Constant(_) => deps
    case Resolve(name, items) => ScannedAll(WithDependency(deps, name), items)
    case Call(_, items) => ScannedAll(deps, items)
    case Unary(_, left) => Scanned(deps, left)
    case Ternary(cond, left, right) => Scanned(Scanned(Scanned(deps, cond), left), right)
    case Binary(_, left, right) => Scanned(Scanned(deps, left), right)
    case And(left, right) => Scanned(Scanned(deps, left), right)
    case Or(left, right) => Scanned(Scanned(deps, left), right)
    case StrCat(left, right) => Scanned(Scanned(deps, left), right)
    case StrRep(left, right) => Scanned(Scanned(deps, left), right)
  }

  function ScannedAll(deps: seq<Name>, items: seq<Expr>): seq<Name>
    decreases items, 0
  {
    if items == [] then deps else ScannedAll(Scanned(deps, items[0]), items[1..])
  }

  /** `more` lists each element of `deps` and of `names` once. */
  ghost predicate Extends(deps: seq<Name>, names: set<Name>, more: seq<Name>) {
    && (NoDuplicates(deps) ==> NoDuplicates(more))
    && (forall n :: n in more <==> n in deps || n in names)
  }

  lemma {:induction false} ScannedAreNames(deps: seq<Name>, e: Expr)
    ensures Extends(deps, NamesOf(e), Scanned(deps, e))
    decreases e, 1
  {
    match e
    case Constant(_) =>
    case Resolve(name, items) =>
      ScannedItemsAreNames(WithDependency(deps, name), items);
    case Call(_, items) =>
      ScannedItemsAreNames(deps, items);
    case Unary(_, left) =>
      ScannedAreNames(deps, left);
    case Ternary(cond, left, right) =>
      ScannedAreNames(deps, cond);
      ScannedAreNames(Scanned(deps, cond), left);
      ScannedAreNames(Scanned(Scanned(deps, cond), left), right);
    case _ =>
      ScannedAreNames(deps, e.left);
      ScannedAreNames(Scanned(deps, e.left), e.right);
  }

  lemma {:induction false} ScannedItemsAreNames(deps: seq<Name>, items: seq<Expr>)
    ensures Extends(deps, NamesOfAll(items), ScannedAll(deps, items))
    decreases items, 0
  {
    if items != [] {
      ScannedAreNames(deps, items[0]);
      ScannedItemsAreNames(Scanned(deps, items[0]), items[1..]);
    }
  }

  // The order of the scan.

  /** The names that are written in a tree, from left to right, and a name before its indexes. */
  function Mentions(e: Expr): seq<Name>
    decreases e, 1
  {
    match e
    case Constant(_) => []
    case Resolve(name, items) => [name] + MentionsOf(items)
    case Call(_, items) => MentionsOf(items)
    case Unary(_, left) => Mentions(left)
    case Ternary(cond, left, right) => Mentions(cond) + (Mentions(left) + Mentions(right))
    case _ => Mentions(e.left) + Mentions(e.right)
  }

  function MentionsOf(items: seq<Expr>): seq<Name>
    decreases items, 0
  {
    if items == [] then [] else Mentions(items[0]) + MentionsOf(items[1..])
  }

  /** A list, and behind it the names that it does not have, each at its first mention. */
  function FirstMentions(deps: seq<Name>, names: seq<Name>): seq<Name>
    decreases |names|
  {
    if names == [] then deps
    else FirstMentions(if names[0] in deps then deps else deps + [names[0]], names[1..])
  }

  lemma {:induction false} FirstMentionsAppend(deps: seq<Name>, a: seq<Name>, b: seq<Name>)
    ensures FirstMentions(deps, a + b) == FirstMentions(FirstMentions(deps, a), b)
    decreases |a|
  {
    if a == [] {
      assert a + b == b;
    } else {
      assert (a + b)[1..] == a[1..] + b;
      FirstMentionsAppend(if a[0] in deps then deps else deps + [a[0]], a[1..], b);
    }
  }

  /** The scan lists the names of a tree in the order in which they are first written. */
  lemma {:induction false} ScannedInOrder(deps: seq<Name>, e: Expr)
    ensures Scanned(deps, e) == FirstMentions(deps, Mentions(e))
    decreases e, 1
  {
    match e
    case Constant(_) =>
    case Resolve(name, items) =>
      ScannedItemsInOrder(WithDependency(deps, name), items);
      assert ([name] + MentionsOf(items))[1..] == MentionsOf(items);
    case Call(_, items) =>
      ScannedItemsInOrder(deps, items);
    case Unary(_, left) =>
      ScannedInOrder(deps, left);
    case Ternary(cond, left, right) =>
      ScannedInOrder(deps, cond);
      ScannedInOrder(Scanned(deps, cond), left);
      ScannedInOrder(Scanned(Scanned(deps, cond), left), right);
      FirstMentionsAppend(deps, Mentions(cond), Mentions(left) + Mentions(right));
      FirstMentionsAppend(Scanned(deps, cond), Mentions(left), Mentions(right));
    case _ =>
      ScannedInOrder(deps, e.left);
      ScannedInOrder(Scanned(deps, e.left), e.right);
      FirstMentionsAppend(deps, Mentions(e.left), Mentions(e.right));
  }

  lemma {:induction false} ScannedItemsInOrder(deps: seq<Name>, items: seq<Expr>)
    ensures ScannedAll(deps, items) == FirstMentions(deps, MentionsOf(items))
    decreases items, 0
  {
    if items != [] {
      ScannedInOrder(deps, items[0]);
      ScannedItemsInOrder(Scanned(deps, items[0]), items[1..]);
      FirstMentionsAppend(deps, Mentions(items[0]), MentionsOf(items[1..]));
    }
  }

  function ScannedRoots(deps: seq<Name>, roots: seq<Root>): seq<Name>
    decreases |roots|
  {
    if roots == [] then deps
    else ScannedRoots(if roots[0].expr.Some? then Scanned(deps, roots[0].expr.value) else deps, roots[1..])
  }

  function NamesOfRoots(roots: seq<Root>): set<Name> {
    if roots == [] then {}
    else (if roots[0].expr.Some? then NamesOf(roots[0].expr.value) else {}) + NamesOfRoots(roots[1..])
  }

  /** The dependencies of an expression are the names of its trees, each listed once. */
  lemma {:induction false} DependenciesAreNames(deps: seq<Name>, roots: seq<Root>)
    ensures Extends(deps, NamesOfRoots(roots), ScannedRoots(deps, roots))
    decreases |roots|
  {
    if roots != [] {
      if roots[0].expr.Some? {
        ScannedAreNames(deps, roots[0].expr.value);
        DependenciesAreNames(Scanned(deps, roots[0].expr.value), roots[1..]);
      } else {
        DependenciesAreNames(deps, roots[1..]);
      }
    }
  }

  lemma {:induction false} RootNames(roots: seq<Root>, i: nat)
    requires i < |roots| && roots[i].expr.Some?
    ensures NamesOf(roots[i].expr.value) <= NamesOfRoots(roots)
  {
    if i > 0 {
      RootNames(roots[1..], i - 1);
    }
  }

  /** Over any environment, every name that the evaluation of a root passes to it is a
      dependency of the expression. */
  lemma QueriesAreDependencies<S(!new)>(ops: Ops, bound: bool, roots: seq<Root>, i: nat,
                                        s: S, step: (S, Query) -> (Outcome, S))
    requires i < |roots| && roots[i].expr.Some?
    ensures var run := Eval(ops, bound, roots[i].expr.value, (s, []), E.Logged(step));
      forall q: Query :: q in run.1.1 ==> q.name in ScannedRoots([], roots)
  {
    RootNames(roots, i);
    DependenciesAreNames([], roots);
    E.QueriesAreNamed(ops, bound, roots[i].expr.value, s, step);
  }

  // ------------------------------------------------------------------
  // Evaluating all roots.

  /** The results of the roots up to the first that fails, its status, and the layers left. */
  function EvalRoots(ops: Ops, bound: bool, roots: seq<Root>, l: E.Layers): (seq<Value>, Status, E.Layers)
    decreases |roots|
  {
    if roots == [] then ([], Success, l)
    else
      var (r, l1) := if roots[0].expr.Some? then Eval(ops, bound, roots[0].expr.value, l, E.Step) else (Ok(Undef), l);
      if r.Err? then ([], r.error, l1)
      else
        var (rest, st, l2) := EvalRoots(ops, bound, roots[1..], l1);
        ([r.value] + rest, st, l2)
  }

  /** Two coherent environments that answer alike for the dependencies of an expression give
      it the same results and the same status. */
  lemma {:induction false} DependenciesDecide(ops: Ops, bound: bool, roots: seq<Root>, l: E.Layers, m: E.Layers)
    requires E.Coherent(l) && E.Coherent(m)
    requires forall q: Query :: q.name in ScannedRoots([], roots) ==> E.Answer(l, q) == E.Answer(m, q)
    ensures EvalRoots(ops, bound, roots, l).0 == EvalRoots(ops, bound, roots, m).0
    ensures EvalRoots(ops, bound, roots, l).1 == EvalRoots(ops, bound, roots, m).1
  {
    DependenciesAreNames([], roots);
    NamesDecideRoots(ops, bound, roots, l, m);
  }

  lemma {:induction false} NamesDecideRoots(ops: Ops, bound: bool, roots: seq<Root>, l: E.Layers, m: E.Layers)
    requires E.Coherent(l) && E.Coherent(m)
    requires forall q: Query :: q.name in NamesOfRoots(roots) ==> E.Answer(l, q) == E.Answer(m, q)
    ensures EvalRoots(ops, bound, roots, l).0 == EvalRoots(ops, bound, roots, m).0
    ensures EvalRoots(ops, bound, roots, l).1 == EvalRoots(ops, bound, roots, m).1
    decreases |roots|
  {
    if roots != [] {
      var l1, m1 := l, m;
      if roots[0].expr.Some? {
        var e := roots[0].expr.value;
        E.AnswersDecide(ops, bound, e, l, m);
        E.CacheTransparent(ops, bound, e, l);
        E.CacheTransparent(ops, bound, e, m);
        l1, m1 := Eval(ops, bound, e, l, E.Step).1, Eval(ops, bound, e, m, E.Step).1;
        E.CoherentSame(l, l1);
        E.CoherentSame(m, m1);
      }
      forall q: Query | q.name in NamesOfRoots(roots[1..]) ensures E.Answer(l1, q) == E.Answer(m1, q) {
        assert q.name in NamesOfRoots(roots);
      }
      NamesDecideRoots(ops, bound, roots[1..], l1, m1);
    }
  }

  /** The outcome of a root by itself, in the environment as it is at first. */
  function Alone(ops: Ops, bound: bool, root: Root, l: E.Layers): Outcome {
    match root.expr
    case None => Ok(Undef)
    case Some(e) => Eval(ops, bound, e, l, E.Step).0
  }

  /** In a coherent environment no root depends on those before it: the results are those of each
      root alone, up to the first one that fails, whose error is the status. */
  lemma {:induction false} RootsIndependent(ops: Ops, bound: bool, roots: seq<Root>, l: E.Layers)
    requires E.Coherent(l)
    ensures var (values, st, l1) := EvalRoots(ops, bound, roots, l);
      && E.SameAnswers(l, l1)
      && |values| <= |roots| && (st == Success <==> |values| == |roots|)
      && (forall i :: 0 <= i < |values| ==> Alone(ops, bound, roots[i], l) == Ok(values[i]))
      && (|values| < |roots| ==> Alone(ops, bound, roots[|values|], l) == Err(st))
    decreases |roots|
  {
    if roots != [] {
      FirstRoot(ops, bound, roots[0], l);
      var (r, l1) := EvalRoot(ops, bound, roots[0], l);
      if r.Ok? {
        E.CoherentSame(l, l1);
        RootsIndependent(ops, bound, roots[1..], l1);
        forall i | 0 <= i < |roots| - 1
          ensures Alone(ops, bound, roots[1..][i], l) == Alone(ops, bound, roots[1..][i], l1)
        {
          AloneSame(ops, bound, roots[1..][i], l, l1);
        }
        var values := EvalRoots(ops, bound, roots, l).0;
        assert forall i :: 0 < i < |values| ==> roots[i] == roots[1..][i - 1];
      }
    }
  }

  lemma FirstRoot(ops: Ops, bound: bool, root: Root, l: E.Layers)
    requires E.Coherent(l)
    ensures var (r, l1) := EvalRoot(ops, bound, root, l); r == Alone(ops, bound, root, l) && E.SameAnswers(l, l1)
  {
    if root.expr.Some? {
      E.CacheTransparent(ops, bound, root.expr.value, l);
    }
  }

  lemma AloneSame(ops: Ops, bound: bool, root: Root, l: E.Layers, m: E.Layers)
    requires E.Coherent(l) && E.Coherent(m) && E.SameAnswers(l, m)
    ensures Alone(ops, bound, root, l) == Alone(ops, bound, root, m)
  {
    if root.expr.Some? {
      E.AnswersDecide(ops, bound, root.expr.value, l, m);
    }
  }

  // ------------------------------------------------------------------
  // The code.

  class Expression {
    var pResolver: Resolver
    var vRoots: seq<Root>
    var vDependencies: seq<Name>

    constructor (r: Resolver)
      ensures pResolver == r && vRoots == [] && vDependencies == []
    {
      pResolver, vRoots, vDependencies := r, [], [];
    }

    method AddDependency(name: Name)
      modifies this`vDependencies
      ensures vDependencies == WithDependency(old(vDependencies), name)
    {
      for i := 0 to |vDependencies|
        invariant name !in vDependencies[..i]
      {
        if vDependencies[i] == name {
          return;
        }
      }
      vDependencies := vDependencies + [name];
    }

    method HasDependency(name: Name) returns (found: bool)
      ensures found <==> name in vDependencies
    {
      for i := 0 to |vDependencies|
        invariant name !in vDependencies[..i]
      {
        if vDependencies[i] == name {
          return true;
        }
      }
      return false;
    }

    method ScanDependencies(e: Expr)
      modifies this`vDependencies
      decreases e, 1
      ensures vDependencies == Scanned(old(vDependencies), e)
    {
      match e {
        case Constant(_) =>
        case Resolve(name, items) =>
          AddDependency(name);
          ScanItems(items);
        case Call(_, items) =>
          ScanItems(items);
        case Unary(_, left) =>
          ScanDependencies(left);
        case Ternary(cond, left, right) =>
          ScanDependencies(cond);
          ScanDependencies(left);
          ScanDependencies(right);
        case _ =>
          ScanDependencies(e.left);
          ScanDependencies(e.right);
      }
    }

    method ScanItems(items: seq<Expr>)
      modifies this`vDependencies
      decreases items, 0
      ensures vDependencies == ScannedAll(old(vDependencies), items)
    {
      assert items[0..] == items;
      for i := 0 to |items|
        invariant ScannedAll(vDependencies, items[i..]) == ScannedAll(old(vDependencies), items)
      {
        assert items[i..][1..] == items[i + 1..];
        ScanDependencies(items[i]);
      }
    }

    method PostProcess()
      modifies this`vDependencies
      ensures vDependencies == ScannedRoots(old(vDependencies), vRoots)
    {
      assert vRoots[0..] == vRoots;
      for i := 0 to |vRoots|
        invariant ScannedRoots(vDependencies, vRoots[i..]) == ScannedRoots(old(vDependencies), vRoots)
      {
        assert vRoots[i..][1..] == vRoots[i + 1..];
        if vRoots[i].expr.Some? {
          ScanDependencies(vRoots[i].expr.value);
        }
      }
    }

    method EvaluateRoot(ops: Ops, root: Root) returns (r: Outcome)
      requires ValidResolver(pResolver) && this !in Footprint(pResolver)
      modifies Footprint(pResolver)
      ensures ValidResolver(pResolver) && Footprint(pResolver) == old(Footprint(pResolver))
      ensures (r, LayersOf(pResolver))
           == EvalRoot(ops, pResolver != NoResolver, root, old(LayersOf(pResolver)))
    {
      r := Ok(Undef);
      if root.expr.Some? {
        r := T.Evaluate(ops, root.expr.value, pResolver);
      }
    }

    /** Evaluates every root up to the first failure; the first result is returned. The result
        that is left in a root whose evaluation fails is not specified. */
    method EvaluateAll(ops: Ops) returns (res: Status, result: Value)
      requires ValidResolver(pResolver) && this !in Footprint(pResolver)
      modifies this`vRoots, Footprint(pResolver)
      ensures ValidResolver(pResolver)
      ensures old(vRoots) == [] ==> res == BadState
      ensures old(vRoots) != [] ==>
        res == EvalRoots(ops, pResolver != NoResolver, old(vRoots), old(LayersOf(pResolver))).1
      ensures LayersOf(pResolver) == EvalRoots(ops, pResolver != NoResolver, old(vRoots), old(LayersOf(pResolver))).2
      ensures HoldResults(old(vRoots),
                          EvalRoots(ops, pResolver != NoResolver, old(vRoots), old(LayersOf(pResolver))).0, vRoots)
      ensures res == Success ==> |vRoots| > 0 && result == vRoots[0].result
    {
      res, result := BadState, Undef;
      ghost var was, bound, values := vRoots, pResolver != NoResolver, [];
      ghost var whole := EvalRoots(ops, bound, was, LayersOf(pResolver));
      NoneDone(ops, bound, was, LayersOf(pResolver));
      for i := 0 to |vRoots|
        invariant |vRoots| == |was| && |values| == i
        invariant ValidResolver(pResolver) && Footprint(pResolver) == old(Footprint(pResolver))
        invariant res == if i > 0 then Success else BadState
        invariant vRoots == WithResults(was, values)
        invariant whole == After(values, EvalRoots(ops, bound, was[i..], LayersOf(pResolver)))
      {
        ghost var l := LayersOf(pResolver);
        var r := EvaluateRoot(ops, vRoots[i]);
        RootDone(ops, bound, was, i, values, l);
        if r.Err? {
          ResultsHeld(was, values);
          return r.error, Undef;
        }
        res := Success;
        OneMoreResult(was, values, r.value);
        vRoots := vRoots[i := vRoots[i].(result := r.value)];
        values := values + [r.value];
      }
      AllDone(ops, bound, was, values, LayersOf(pResolver));
      ResultsHeld(was, values);
      if res == Success {
        result := vRoots[0].result;
      }
    }
  }

  /** The trees stay, the first roots hold the new results, and those behind the next one are as
      they were. */
  ghost predicate HoldResults(was: seq<Root>, values: seq<Value>, now: seq<Root>) {
    && |values| <= |was| == |now|
    && (forall i :: 0 <= i < |was| ==> now[i].expr == was[i].expr)
    && (forall i :: 0 <= i < |values| ==> now[i].result == values[i])
    && (forall i :: |values| < i < |was| ==> now[i] == was[i])
  }

  function After(values: seq<Value>, rest: (seq<Value>, Status, E.Layers)): (seq<Value>, Status, E.Layers) {
    (values + rest.0, rest.1, rest.2)
  }

  /** One root: its outcome and the layers it leaves. */
  function EvalRoot(ops: Ops, bound: bool, root: Root, l: E.Layers): (Outcome, E.Layers) {
    if root.expr.None? then (Ok(Undef), l) else Eval(ops, bound, root.expr.value, l, E.Step)
  }

  lemma NoneDone(ops: Ops, bound: bool, was: seq<Root>, l: E.Layers)
    ensures EvalRoots(ops, bound, was, l) == After([], EvalRoots(ops, bound, was[0..], l))
  {
    assert was[0..] == was;
    var rest := EvalRoots(ops, bound, was, l);
    assert [] + rest.0 == rest.0;
  }

  lemma RootDone(ops: Ops, bound: bool, was: seq<Root>, i: nat, values: seq<Value>, l: E.Layers)
    requires i < |was|
    ensures var (r, l1) := EvalRoot(ops, bound, was[i], l);
      After(values, EvalRoots(ops, bound, was[i..], l))
      == if r.Err? then (values, r.error, l1)
         else After(values + [r.value], EvalRoots(ops, bound, was[i + 1..], l1))
  {
    var (r, l1) := EvalRoot(ops, bound, was[i], l);
    assert was[i..][1..] == was[i + 1..];
    if r.Err? {
      assert values + [] == values;
    } else {
      var rest := EvalRoots(ops, bound, was[i + 1..], l1);
      assert values + ([r.value] + rest.0) == values + [r.value] + rest.0;
    }
  }

  lemma AllDone(ops: Ops, bound: bool, was: seq<Root>, values: seq<Value>, l: E.Layers)
    ensures After(values, EvalRoots(ops, bound, was[|was|..], l)) == (values, Success, l)
  {
    assert values + [] == values;
  }

  /** The roots with the first results stored. */
  function WithResults(was: seq<Root>, values: seq<Value>): seq<Root>
    requires |values| <= |was|
  {
    seq(|was|, i requires 0 <= i < |was| => if i < |values| then was[i].(result := values[i]) else was[i])
  }

  lemma OneMoreResult(was: seq<Root>, values: seq<Value>, v: Value)
    requires |values| < |was|
    ensures var now := WithResults(was, values);
      WithResults(was, values + [v]) == now[|values| := now[|values|].(result := v)]
  {
  }

  lemma ResultsHeld(was: seq<Root>, values: seq<Value>)
    requires |values| <= |was|
    ensures HoldResults(was, values, WithResults(was, values))
  {
  }
}
