/** What an environment answers, and how a caching environment changes by answering:
    src/main/expr/Variables.cpp, Parameters.cpp, EnvResolver.cpp. */
module Environments {
  import opened Basics
  import opened Names
  import opened Evaluator

  /** A resolver as a value. `Plain` answers as a fixed function; `Cached` is a variable table
      that also stores what the resolver below it answers. */
  datatype Layers =
    | Bottom
    | Plain(answer: Query -> Outcome)
    | Cached(vars: map<Name, Value>, lower: Layers)

  function Flat(q: Query): Name {
    Flatten(q.name, q.indexes)
  }

  /** The answer to a query if it is the first one to be asked. */
  function Answer(l: Layers, q: Query): Outcome {
    match l
    case Bottom => Err(NotFound)
    case Plain(answer) => answer(q)
    case Cached(vars, lower) => if Flat(q) in vars then Ok(vars[Flat(q)]) else Answer(lower, q)
  }

  /** One query: the outcome, and the layers with what they now store. */
  function Step(l: Layers, q: Query): (Outcome, Layers) {
    match l
    case Bottom => (Err(NotFound), l)
    case Plain(answer) => (answer(q), l)
    case Cached(vars, lower) =>
      if Flat(q) in vars then (Ok(vars[Flat(q)]), l)
      else
        var (r, lower') := Step(lower, q);
        (r, Cached(if r.Ok? then vars[Flat(q) := r.value] else vars, lower'))
  }

  /** What `unset` returns for a name, given the variables that the table holds. */
  function Removal(vars: map<Name, Value>, name: Name): Outcome {
    if name in vars then Ok(vars[name]) else Err(NotFound)
  }

  function StepAll(l: Layers, qs: seq<Query>): seq<Outcome>
    decreases |qs|
  {
    if qs == [] then [] else [Step(l, qs[0]).0] + StepAll(Step(l, qs[0]).1, qs[1..])
  }

  ghost predicate SameAnswers(l: Layers, m: Layers) {
    forall q :: Answer(l, q) == Answer(m, q)
  }

  /** Queries for one flat name get one answer, unless all of them fail. */
  ghost predicate CoherentAt(l: Layers, flat: Name) {
    forall q, p :: Flat(q) == flat && Flat(p) == flat && Answer(l, q).Ok? ==> Answer(l, p) == Answer(l, q)
  }

  ghost predicate Coherent(l: Layers) {
    forall q, p :: Flat(q) == Flat(p) && Answer(l, q).Ok? ==> Answer(l, p) == Answer(l, q)
  }

  // ------------------------------------------------------------------
  // One query.

  /** A single answer is never stale; answering keeps every answer if the name is coherent. */
  lemma {:induction false} StepAnswers(l: Layers, q: Query)
    ensures Step(l, q).0 == Answer(l, q)
    ensures CoherentAt(l, Flat(q)) ==> SameAnswers(Step(l, q).1, l)
  {
    if l.Cached? && Flat(q) !in l.vars {
      StepAnswers(l.lower, q);
      if CoherentAt(l, Flat(q)) {
        forall p, r | Flat(p) == Flat(q) && Flat(r) == Flat(q) && Answer(l.lower, p).Ok?
          ensures Answer(l.lower, r) == Answer(l.lower, p)
        {
          assert Answer(l, p) == Answer(l.lower, p) && Answer(l, r) == Answer(l.lower, r);
        }
        var m := Step(l, q).1;
        forall p ensures Answer(m, p) == Answer(l, p) {
          assert Answer(m.lower, p) == Answer(l.lower, p);
          if Flat(p) == Flat(q) {
            assert Answer(l, q) == Answer(l.lower, q) && Answer(l, p) == Answer(l.lower, p);
          }
        }
      }
    }
  }

  lemma CoherentSame(l: Layers, m: Layers)
    requires SameAnswers(l, m) && Coherent(l)
    ensures Coherent(m)
  {
    forall q, p | Flat(q) == Flat(p) && Answer(m, q).Ok? ensures Answer(m, p) == Answer(m, q) {
      assert Answer(l, q) == Answer(m, q) && Answer(l, p) == Answer(m, p);
    }
  }

  // ------------------------------------------------------------------
  // Runs of queries.

  ghost predicate TransparentRuns(l: Layers) {
    forall qs :: AnsweredAsFirst(l, qs)
  }

  ghost predicate AnsweredAsFirst(l: Layers, qs: seq<Query>) {
    |StepAll(l, qs)| == |qs| && forall i :: 0 <= i < |qs| ==> StepAll(l, qs)[i] == Answer(l, qs[i])
  }

  lemma {:induction false} CoherentRuns(l: Layers, qs: seq<Query>)
    requires Coherent(l)
    ensures AnsweredAsFirst(l, qs)
    decreases |qs|
  {
    if qs != [] {
      var m := Step(l, qs[0]).1;
      StepAnswers(l, qs[0]);
      CoherentSame(l, m);
      CoherentRuns(m, qs[1..]);
      forall i | 0 <= i < |qs| ensures StepAll(l, qs)[i] == Answer(l, qs[i]) {
        if i > 0 {
          assert StepAll(l, qs)[i] == StepAll(m, qs[1..])[i - 1] == Answer(m, qs[i]);
        }
      }
    }
  }

  /** The cache of a variable table cannot be told from no cache, over every run of queries,
      exactly when the table is coherent. */
  lemma TransparentIffCoherent(l: Layers)
    requires l.Cached?
    ensures TransparentRuns(l) <==> Coherent(l)
  {
    if Coherent(l) {
      forall qs ensures AnsweredAsFirst(l, qs) {
        CoherentRuns(l, qs);
      }
    } else {
      var q, p :| Flat(q) == Flat(p) && Answer(l, q).Ok? && Answer(l, p) != Answer(l, q);
      StepAnswers(l, q);
      var m := Step(l, q).1;
      assert StepAll(m, [p]) == [Step(m, p).0] + StepAll(Step(m, p).1, []);
      assert [q, p][1..] == [p];
      assert StepAll(l, [q, p])[1] == Step(m, p).0 == Answer(l, q);
      assert !AnsweredAsFirst(l, [q, p]);
    }
  }

  // ------------------------------------------------------------------
  // Which resolvers are coherent.

  /** An indexed query is answered as the query for the flattened name. */
  ghost predicate Flattening(l: Layers) {
    forall q :: Answer(l, q) == Answer(l, Query(Flat(q), []))
  }

  lemma FlatOfFlat(q: Query)
    ensures Flat(Query(Flat(q), [])) == Flat(q)
  {
  }

  lemma FlatteningIsCoherent(l: Layers)
    requires Flattening(l)
    ensures Coherent(l)
  {
    forall q, p | Flat(q) == Flat(p) && Answer(l, q).Ok? ensures Answer(l, p) == Answer(l, q) {
      assert Answer(l, q) == Answer(l, Query(Flat(q), []));
    }
  }

  /** Stacking variable tables keeps both properties, whatever the tables hold. */
  lemma CachedLifts(vars: map<Name, Value>, lower: Layers)
    ensures Flattening(lower) ==> Flattening(Cached(vars, lower))
    ensures Coherent(lower) ==> Coherent(Cached(vars, lower))
  {
    var l := Cached(vars, lower);
    if Flattening(lower) {
      forall q ensures Answer(l, q) == Answer(l, Query(Flat(q), [])) {
        FlatOfFlat(q);
        assert Answer(lower, q) == Answer(lower, Query(Flat(q), []));
      }
    }
  }

  /** The resolver at the bottom of a stack of variable tables. */
  function Base(l: Layers): Layers {
    if l.Cached? then Base(l.lower) else l
  }

  lemma {:induction false} StackIsCoherent(l: Layers)
    requires Coherent(Base(l))
    ensures Coherent(l)
  {
    if l.Cached? {
      StackIsCoherent(l.lower);
      CachedLifts(l.vars, l.lower);
    }
  }

  /** Tables, the topmost one first, over a resolver. */
  function Stack(tables: seq<map<Name, Value>>, base: Layers): Layers {
    if tables == [] then base else Cached(tables[0], Stack(tables[1..], base))
  }

  /** The first `i` tables with one more binding. */
  function StoredAbove(tables: seq<map<Name, Value>>, i: nat, name: Name, v: Value): seq<map<Name, Value>>
    requires i <= |tables|
  {
    seq(|tables|, j requires 0 <= j < |tables| => if j < i then tables[j][name := v] else tables[j])
  }

  /** The topmost table that has the flat name answers, or else the resolver below all of them;
      a value is then stored in every table above, and nothing else changes. */
  lemma {:induction false} TopmostAnswers(tables: seq<map<Name, Value>>, base: Layers, q: Query, i: nat)
    requires i <= |tables| && !base.Cached? && forall j :: 0 <= j < i ==> Flat(q) !in tables[j]
    requires i < |tables| ==> Flat(q) in tables[i]
    ensures var answer := if i < |tables| then Ok(tables[i][Flat(q)]) else Answer(base, q);
      && Answer(Stack(tables, base), q) == answer
      && Step(Stack(tables, base), q)
      == (answer, if answer.Ok? then Stack(StoredAbove(tables, i, Flat(q), answer.value), base)
                  else Stack(tables, base))
  {
    if i == 0 {
      assert forall v :: StoredAbove(tables, 0, Flat(q), v) == tables;
    } else {
      TopmostAnswers(tables[1..], base, q, i - 1);
      forall v ensures StoredAbove(tables, i, Flat(q), v)[1..] == StoredAbove(tables[1..], i - 1, Flat(q), v) {
      }
    }
  }

  /** `EnvResolver::resolve`: indexed queries and missing variables give null. */
  function EnvironmentAnswer(env: map<Name, string>): Query -> Outcome {
    (q: Query) => if q.indexes == [] && q.name in env then Ok(Str(env[q.name])) else Ok(Null)
  }

  /** The process environment is coherent only if none of its variables is named like a
      flattened index; "a_1" is such a name. */
  lemma EnvironmentCoherence(env: map<Name, string>)
    ensures Coherent(Plain(EnvironmentAnswer(env)))
       <==> forall q: Query :: q.indexes != [] ==> Flat(q) !in env
  {
    var l := Plain(EnvironmentAnswer(env));
    if q: Query :| q.indexes != [] && Flat(q) in env {
      FlatOfFlat(q);
      assert Answer(l, q) == Ok(Null) && Answer(l, Query(Flat(q), [])) != Ok(Null);
    } else {
      forall q, p | Flat(q) == Flat(p) && Answer(l, q).Ok? ensures Answer(l, p) == Answer(l, q) {
        if q.indexes == [] {
          assert Flat(q) == q.name;
        }
        if p.indexes == [] {
          assert Flat(p) == p.name;
        }
      }
    }
  }

  // ------------------------------------------------------------------
  // Trees over a caching environment.

  /** The environment that answers every query as `l` would answer it first. */
  function PureStep(l: Layers): ((), Query) -> (Outcome, ()) {
    (s: (), q: Query) => (Answer(l, q), ())
  }

  /** The cache is transparent: a tree over coherent layers evaluates as over their fixed
      answers, and leaves every answer as it was. */
  lemma CacheTransparent(ops: Ops, bound: bool, e: Expr, l: Layers)
    requires Coherent(l)
    ensures Eval(ops, bound, e, l, Step).0 == Eval(ops, bound, e, (), PureStep(l)).0
    ensures SameAnswers(Eval(ops, bound, e, l, Step).1, l)
  {
    var rel := (m: Layers, u: ()) => SameAnswers(m, l);
    forall m: Layers, u: (), q: Query | rel(m, u) && q.name in NamesOf(e)
      ensures Step(m, q).0 == PureStep(l)(u, q).0 && rel(Step(m, q).1, PureStep(l)(u, q).1)
    {
      CoherentSame(l, m);
      StepAnswers(m, q);
    }
    Simulation(ops, bound, e, NamesOf(e), l, Step, (), PureStep(l), rel);
  }

  /** A tree cannot tell two environments apart that answer alike for the names it resolves. */
  lemma AnswersDecide(ops: Ops, bound: bool, e: Expr, l: Layers, m: Layers)
    requires Coherent(l) && Coherent(m)
    requires forall q: Query :: q.name in NamesOf(e) ==> Answer(l, q) == Answer(m, q)
    ensures Eval(ops, bound, e, l, Step).0 == Eval(ops, bound, e, m, Step).0
  {
    CacheTransparent(ops, bound, e, l);
    CacheTransparent(ops, bound, e, m);
    NamesDecide(ops, bound, e, (), PureStep(l), PureStep(m));
  }

  /** Whatever was evaluated before, a tree gives the result it would have given at first. */
  lemma EvaluationRepeats(ops: Ops, bound: bool, before: Expr, e: Expr, l: Layers)
    requires Coherent(l)
    ensures var m := Eval(ops, bound, before, l, Step).1;
      Eval(ops, bound, e, m, Step).0 == Eval(ops, bound, e, l, Step).0 && SameAnswers(m, l)
  {
    var m := Eval(ops, bound, before, l, Step).1;
    CacheTransparent(ops, bound, before, l);
    CoherentSame(l, m);
    AnswersDecide(ops, bound, e, l, m);
  }

  // ------------------------------------------------------------------
  // The queries a tree makes.

  function Logged<S>(step: (S, Query) -> (Outcome, S)): ((S, seq<Query>), Query) -> (Outcome, (S, seq<Query>)) {
    (s: (S, seq<Query>), q: Query) => var (r, s1) := step(s.0, q); (r, (s1, s.1 + [q]))
  }

  /** Over any environment, every name that is passed to it is a name of the tree. */
  lemma QueriesAreNamed<S(!new)>(ops: Ops, bound: bool, e: Expr, s: S, step: (S, Query) -> (Outcome, S))
    ensures var run := Eval(ops, bound, e, (s, []), Logged(step));
      && run.0 == Eval(ops, bound, e, s, step).0
      && run.1.0 == Eval(ops, bound, e, s, step).1
      && forall q: Query :: q in run.1.1 ==> q.name in NamesOf(e)
  {
    var f := Logged(step);
    var rel := (x: (S, seq<Query>), y: S) => x.0 == y && forall q: Query :: q in x.1 ==> q.name in NamesOf(e);
    Simulation(ops, bound, e, NamesOf(e), (s, []), f, s, step, rel);
  }

  /** Over any environment, the outcome depends on the answers for the names of the tree only. */
  lemma NamesDecide<S(!new)>(ops: Ops, bound: bool, e: Expr, s: S,
                             f: (S, Query) -> (Outcome, S), g: (S, Query) -> (Outcome, S))
    requires forall x: S, q: Query :: q.name in NamesOf(e) ==> f(x, q) == g(x, q)
    ensures Eval(ops, bound, e, s, f) == Eval(ops, bound, e, s, g)
  {
    Simulation(ops, bound, e, NamesOf(e), s, f, s, g, (x: S, y: S) => x == y);
  }

  /** An environment variable "a_1" makes a table over the process environment answer a[1]
      differently, once "a_1" has been asked for. */
  lemma EnvironmentLeaks(value: string)
    ensures !TransparentRuns(Cached(map[], Plain(EnvironmentAnswer(map["a_1" := value]))))
  {
    var env: map<Name, string> := map["a_1" := value];
    var l := Plain(EnvironmentAnswer(env));
    var q := Query("a", [1]);
    assert q.indexes[..0] == [] && Flat(q) == "a" + ("_" + "1") == "a_1";
    var p := Query("a_1", []);
    assert Flat(p) == "a_1" && Answer(Cached(map[], l), p) == Ok(Str(value)) && Answer(Cached(map[], l), q) == Ok(Null);
    TransparentIffCoherent(Cached(map[], l));
  }
}
