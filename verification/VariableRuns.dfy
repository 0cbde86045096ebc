/** Runs of operations on a variable table: `set`, `set_move`, `unset` and `resolve` of
    src/main/expr/Variables.cpp in any order. */
module VariableRuns {
  import opened Basics
  import opened Names
  import opened Evaluator
  import opened Environments
  import opened SortedTables
  import opened VariableTables

  datatype Command =
    | Store(name: Name, value: Value)
    | StoreMoved(name: Name, value: Value)
    | Forget(name: Name)
    | Ask(q: Query)

  /** The layers behind one command. */
  function After(l: Layers, c: Command): (r: Layers)
    requires l.Cached?
    ensures r.Cached?
  {
    match c
    case Store(name, value) => Cached(l.vars[name := value], l.lower)
    case StoreMoved(name, value) => Cached(l.vars[name := value], l.lower)
    case Forget(name) => Cached(l.vars - {name}, l.lower)
    case Ask(q) => Step(l, q).1
  }

  function AfterAll(l: Layers, cs: seq<Command>): (r: Layers)
    requires l.Cached?
    ensures r.Cached?
    decreases |cs|
  {
    if cs == [] then l else AfterAll(After(l, cs[0]), cs[1..])
  }

  function WrittenBy(vars: map<Name, Value>, c: Command): map<Name, Value> {
    match c
    case Store(name, value) => vars[name := value]
    case StoreMoved(name, value) => vars[name := value]
    case Forget(name) => vars - {name}
    case Ask(_) => vars
  }

  /** The reference: only what was stored and not removed, whatever was asked in between. */
  function Written(vars: map<Name, Value>, cs: seq<Command>): map<Name, Value>
    decreases |cs|
  {
    if cs == [] then vars else Written(WrittenBy(vars, cs[0]), cs[1..])
  }

  /** A table holds what was written, and beside it only answers of the resolver below. */
  ghost predicate Holds(l: Layers, written: map<Name, Value>, base: Layers) {
    && l.Cached? && SameAnswers(l.lower, base)
    && (forall n :: n in written ==> n in l.vars && l.vars[n] == written[n])
    && (forall q :: Flat(q) in l.vars && Flat(q) !in written ==> Answer(base, q) == Ok(l.vars[Flat(q)]))
  }

  lemma HoldsAnswers(l: Layers, written: map<Name, Value>, base: Layers)
    requires Holds(l, written, base)
    ensures SameAnswers(l, Cached(written, base))
  {
    forall q ensures Answer(l, q) == Answer(Cached(written, base), q) {
      assert Answer(l.lower, q) == Answer(base, q);
    }
  }

  lemma AskHolds(l: Layers, written: map<Name, Value>, base: Layers, q: Query)
    requires Holds(l, written, base) && Coherent(base)
    ensures Holds(Step(l, q).1, written, base)
  {
    if Flat(q) !in l.vars {
      CoherentSame(base, l.lower) by {
        assert SameAnswers(base, l.lower);
      }
      StepAnswers(l.lower, q);
      var m := Step(l, q).1;
      forall p | Flat(p) in m.vars && Flat(p) !in written ensures Answer(base, p) == Ok(m.vars[Flat(p)]) {
        assert Answer(l.lower, p) == Answer(base, p) && Answer(l.lower, q) == Answer(base, q);
      }
      forall p ensures Answer(m.lower, p) == Answer(base, p) {
        assert Answer(m.lower, p) == Answer(l.lower, p);
      }
    }
  }

  lemma {:induction false} RunHolds(l: Layers, written: map<Name, Value>, base: Layers, cs: seq<Command>)
    requires Holds(l, written, base) && Coherent(base)
    ensures Holds(AfterAll(l, cs), Written(written, cs), base)
    decreases |cs|
  {
    if cs != [] {
      if cs[0].Ask? {
        AskHolds(l, written, base, cs[0].q);
      }
      RunHolds(After(l, cs[0]), WrittenBy(written, cs[0]), base, cs[1..]);
    }
  }

  /** The table answers every query as a plain map of what the run wrote, in front of the resolver. */
  ghost predicate LeavesNoTrace(l: Layers, cs: seq<Command>)
    requires l.Cached?
  {
    SameAnswers(AfterAll(l, cs), Cached(Written(l.vars, cs), l.lower))
  }

  lemma CoherentLeavesNoTrace(l: Layers, cs: seq<Command>)
    requires l.Cached? && Coherent(l.lower)
    ensures LeavesNoTrace(l, cs)
  {
    RunHolds(l, l.vars, l.lower, cs);
    HoldsAnswers(AfterAll(l, cs), Written(l.vars, cs), l.lower);
  }

  lemma ForgetThenAsk(l: Layers, q: Query)
    requires l.Cached?
    ensures var m, cs := Cached(l.vars - {Flat(q)}, l.lower), [Forget(Flat(q)), Ask(q)];
      AfterAll(l, cs) == Step(m, q).1 && Written(l.vars, cs) == m.vars
  {
    var m, cs := Cached(l.vars - {Flat(q)}, l.lower), [Forget(Flat(q)), Ask(q)];
    assert cs[1..] == [Ask(q)] && cs[1..][1..] == [];
    assert AfterAll(l, cs) == AfterAll(m, cs[1..]) == AfterAll(Step(m, q).1, []);
    assert Written(l.vars, cs) == Written(m.vars, cs[1..]) == Written(m.vars, []);
  }

  /** A query that is answered after its name was removed hides the answer to another one. */
  lemma AnswerHides(l: Layers, q: Query, p: Query)
    requires l.Cached? && Flat(q) == Flat(p) && Answer(l.lower, q).Ok? && Answer(l.lower, p) != Answer(l.lower, q)
    ensures !LeavesNoTrace(l, [Forget(Flat(q)), Ask(q)])
  {
    var m := Cached(l.vars - {Flat(q)}, l.lower);
    StepAnswers(l.lower, q);
    ForgetThenAsk(l, q);
    assert Answer(Step(m, q).1, p) == Answer(l.lower, q) && Answer(m, p) == Answer(l.lower, p);
  }

  /** What a table keeps of earlier answers never shows, over every run, if and only if the
      resolver below it is coherent. */
  lemma QueriesLeaveNoTrace(l: Layers)
    requires l.Cached?
    ensures (forall cs :: LeavesNoTrace(l, cs)) <==> Coherent(l.lower)
  {
    if Coherent(l.lower) {
      forall cs ensures LeavesNoTrace(l, cs) {
        CoherentLeavesNoTrace(l, cs);
      }
    } else {
      var q, p :| Flat(q) == Flat(p) && Answer(l.lower, q).Ok? && Answer(l.lower, p) != Answer(l.lower, q);
      AnswerHides(l, q, p);
    }
  }

  // ------------------------------------------------------------------
  // The last write.

  predicate Writes(c: Command, n: Name) {
    match c
    case Store(name, _) => name == n
    case StoreMoved(name, _) => name == n
    case Forget(name) => name == n
    case Ask(_) => false
  }

  lemma {:induction false} ValueStays(l: Layers, cs: seq<Command>, n: Name)
    requires l.Cached? && n in l.vars && forall i :: 0 <= i < |cs| ==> !Writes(cs[i], n)
    ensures n in AfterAll(l, cs).vars && AfterAll(l, cs).vars[n] == l.vars[n]
    decreases |cs|
  {
    if cs != [] {
      ValueStays(After(l, cs[0]), cs[1..], n);
    }
  }

  lemma {:induction false} StaysMissing(l: Layers, cs: seq<Command>, n: Name)
    requires l.Cached? && n !in l.vars && forall i :: 0 <= i < |cs| ==> !Writes(cs[i], n)
    requires forall i :: 0 <= i < |cs| && cs[i].Ask? ==> Flat(cs[i].q) != n
    ensures n !in AfterAll(l, cs).vars
    decreases |cs|
  {
    if cs != [] {
      StaysMissing(After(l, cs[0]), cs[1..], n);
    }
  }

  lemma {:induction false} RunSplits(l: Layers, before: seq<Command>, after: seq<Command>)
    requires l.Cached?
    ensures AfterAll(l, before + after) == AfterAll(AfterAll(l, before), after)
    decreases |before|
  {
    if before == [] {
      assert before + after == after;
    } else {
      assert (before + after)[1..] == before[1..] + after;
      RunSplits(After(l, before[0]), before[1..], after);
    }
  }

  /** Over any resolver, coherent or not, the last write of a name decides: a value stays whatever is
      asked, and a removed name is missing until somebody asks for it. */
  lemma LastWriteDecides(l: Layers, before: seq<Command>, c: Command, after: seq<Command>, n: Name)
    requires l.Cached? && Writes(c, n) && forall i :: 0 <= i < |after| ==> !Writes(after[i], n)
    ensures var vars := AfterAll(l, before + ([c] + after)).vars;
      && (c.Store? || c.StoreMoved? ==> n in vars && vars[n] == c.value)
      && (c.Forget? && (forall i :: 0 <= i < |after| && after[i].Ask? ==> Flat(after[i].q) != n) ==> n !in vars)
  {
    RunSplits(l, before, [c] + after);
    var m := AfterAll(l, before);
    assert ([c] + after)[1..] == after;
    assert AfterAll(m, [c] + after) == AfterAll(After(m, c), after);
    if !c.Forget? {
      ValueStays(After(m, c), after, n);
    } else if forall i :: 0 <= i < |after| && after[i].Ask? ==> Flat(after[i].q) != n {
      StaysMissing(After(m, c), after, n);
    }
  }

  // ------------------------------------------------------------------
  // What `unset` returns.

  /** A query for the flat name `n` has been answered by the resolver below, and the name has
      not been removed since. */
  ghost predicate Remembered(base: Layers, cs: seq<Command>, n: Name)
    decreases |cs|
  {
    cs != [] && ((AnsweredFor(base, cs[0], n) && Forget(n) !in cs[1..]) || Remembered(base, cs[1..], n))
  }

  predicate AnsweredFor(base: Layers, c: Command, n: Name) {
    c.Ask? && Flat(c.q) == n && Answer(base, c.q).Ok?
  }

  lemma AskStores(l: Layers, written: map<Name, Value>, base: Layers, q: Query, n: Name)
    requires Holds(l, written, base) && Coherent(base)
    ensures n in Step(l, q).1.vars <==> n in l.vars || AnsweredFor(base, Ask(q), n)
  {
    if Flat(q) !in l.vars {
      StepAnswers(l.lower, q);
      assert Answer(l.lower, q) == Answer(base, q);
    } else if Flat(q) == n {
      assert n in l.vars;
    }
  }

  /** After a run, a table holds the names that were written, those that are remembered, and
      those that it held before and that were not removed. */
  lemma {:induction false} RunStores(l: Layers, written: map<Name, Value>, base: Layers, cs: seq<Command>, n: Name)
    requires Holds(l, written, base) && Coherent(base)
    ensures n in AfterAll(l, cs).vars
       <==> n in Written(written, cs) || Remembered(base, cs, n) || (n in l.vars && Forget(n) !in cs)
    decreases |cs|
  {
    if cs != [] {
      var c, rest := cs[0], cs[1..];
      if c.Ask? {
        AskHolds(l, written, base, c.q);
        AskStores(l, written, base, c.q, n);
      }
      RunStores(After(l, c), WrittenBy(written, c), base, rest, n);
      assert Forget(n) in cs <==> c == Forget(n) || Forget(n) in rest;
      if c != Forget(n) && Forget(n) !in rest && n in WrittenBy(written, c) {
        StaysWritten(WrittenBy(written, c), rest, n);
      }
    }
  }

  lemma {:induction false} StaysWritten(vars: map<Name, Value>, cs: seq<Command>, n: Name)
    requires n in vars && Forget(n) !in cs
    ensures n in Written(vars, cs)
    decreases |cs|
  {
    if cs != [] {
      assert cs[0] in cs && forall c :: c in cs[1..] ==> c in cs;
      StaysWritten(WrittenBy(vars, cs[0]), cs[1..], n);
    }
  }

  /** The outcome of `unset` after a run is that of the plain map of what was written exactly if
      the name was written, or no query for it has been answered since it was last removed. */
  lemma UnsetOutcome(l: Layers, cs: seq<Command>, n: Name)
    requires l.Cached? && Coherent(l.lower)
    ensures var written := Written(l.vars, cs);
      Removal(AfterAll(l, cs).vars, n) == Removal(written, n) <==> n in written || !Remembered(l.lower, cs, n)
  {
    RunHolds(l, l.vars, l.lower, cs);
    RunStores(l, l.vars, l.lower, cs, n);
    if n in l.vars && Forget(n) !in cs {
      StaysWritten(l.vars, cs, n);
    }
  }

  /** A name that nobody wrote is reported as missing before it was asked for, and with its
      value after. */
  lemma UnsetSeesTheCache(base: Layers, q: Query)
    requires Coherent(base) && Answer(base, q).Ok?
    ensures Removal(AfterAll(Cached(map[], base), []).vars, Flat(q)) == Err(NotFound)
    ensures Removal(AfterAll(Cached(map[], base), [Ask(q)]).vars, Flat(q)) == Answer(base, q)
  {
    StepAnswers(base, q);
    assert [Ask(q)][1..] == [];
  }

  method Perform(table: Variables, c: Command)
    requires table.Valid()
    modifies table.Repr
    ensures table.Valid() && table.Repr == old(table.Repr)
    ensures table.Layers() == After(old(table.Layers()), c)
  {
    match c {
      case Store(name, value) =>
        table.Set(name, value);
      case StoreMoved(name, value) =>
        var _ := table.SetMove(name, value);
      case Forget(name) =>
        var _ := table.Unset(name);
      case Ask(q) =>
        var _ := table.Resolve(q.name, q.indexes);
    }
  }

  /** From the empty table on, every run of operations keeps the array strictly sorted by name
      and equal to a finite map. */
  method Run(lower: Resolver, cs: seq<Command>) returns (table: Variables)
    requires ValidResolver(lower)
    modifies Footprint(lower)
    ensures table.Valid() && Sorted(table.vVars)
    ensures Contents(table.vVars) == AfterAll(Cached(map[], old(LayersOf(lower))), cs).vars
    ensures table.Layers() == AfterAll(Cached(map[], old(LayersOf(lower))), cs)
  {
    table := new Variables(lower);
    ghost var whole := AfterAll(table.Layers(), cs);
    assert cs[0..] == cs;
    for i := 0 to |cs|
      invariant table.Valid() && fresh(table.Repr - old(Footprint(lower)))
      invariant AfterAll(table.Layers(), cs[i..]) == whole
    {
      assert cs[i..][1..] == cs[i + 1..];
      Perform(table, cs[i]);
    }
    assert cs[|cs|..] == [];
  }
}
