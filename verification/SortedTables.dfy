/** The sorted array behind a variable table: src/main/expr/Variables.cpp. */
module SortedTables {
  import opened Names
  import opened Evaluator

  datatype Variable = Variable(name: Name, value: Value)

  predicate Sorted(vs: seq<Variable>) {
    forall i, j :: 0 <= i < j < |vs| ==> CompareTo(vs[i].name, vs[j].name) < 0
  }

  /** The finite map that a table stands for. */
  function Contents(vs: seq<Variable>): map<Name, Value> {
    if vs == [] then map[]
    else Contents(vs[..|vs| - 1])[vs[|vs| - 1].name := vs[|vs| - 1].value]
  }

  lemma {:induction false} ContentsAppend(a: seq<Variable>, b: seq<Variable>)
    ensures Contents(a + b) == Contents(a) + Contents(b)
  {
    if b == [] {
      assert a + b == a;
    } else {
      var c := b[..|b| - 1];
      assert (a + b)[..|a + b| - 1] == a + c;
      ContentsAppend(a, c);
    }
  }

  lemma {:induction false} AbsentBelow(vs: seq<Variable>, name: Name)
    requires forall i :: 0 <= i < |vs| ==> CompareTo(name, vs[i].name) != 0
    ensures name !in Contents(vs)
  {
    if vs != [] {
      AbsentBelow(vs[..|vs| - 1], name);
      CompareNames(name, vs[|vs| - 1].name);
    }
  }

  // ------------------------------------------------------------------
  // Searching.

  /** The search index: one more comparison at it decides whether the name is there, belongs
      before it or belongs behind it. */
  ghost predicate Located(vs: seq<Variable>, name: Name, idx: int) {
    if vs == [] then idx == -1
    else
      && 0 <= idx < |vs|
      && (forall i :: 0 <= i < idx ==> CompareTo(name, vs[i].name) > 0)
      && (forall i :: idx < i < |vs| ==> CompareTo(name, vs[i].name) < 0)
  }

  lemma AllBelow(vs: seq<Variable>, name: Name, mid: nat)
    requires Sorted(vs) && mid < |vs| && CompareTo(name, vs[mid].name) >= 0
    ensures forall i :: 0 <= i < mid ==> CompareTo(name, vs[i].name) > 0
  {
    forall i | 0 <= i < mid ensures CompareTo(name, vs[i].name) > 0 {
      CompareNames(name, vs[i].name);
      CompareNames(name, vs[mid].name);
      if CompareTo(name, vs[mid].name) > 0 {
        CompareTransitive(vs[i].name, vs[mid].name, name);
      }
    }
  }

  lemma AllAbove(vs: seq<Variable>, name: Name, mid: nat)
    requires Sorted(vs) && mid < |vs| && CompareTo(name, vs[mid].name) <= 0
    ensures forall i :: mid < i < |vs| ==> CompareTo(name, vs[i].name) < 0
  {
    forall i | mid < i < |vs| ensures CompareTo(name, vs[i].name) < 0 {
      CompareNames(name, vs[mid].name);
      if CompareTo(name, vs[mid].name) < 0 {
        CompareTransitive(name, vs[mid].name, vs[i].name);
      }
    }
  }

  method IndexOf(vs: seq<Variable>, name: Name) returns (idx: int)
    requires Sorted(vs)
    ensures Located(vs, name, idx)
  {
    var first, last := 0, |vs| - 1;
    if last < 0 {
      return -1;
    }
    while first < last
      invariant 0 <= first < |vs| && first - 1 <= last < |vs|
      invariant forall i :: 0 <= i < first ==> CompareTo(name, vs[i].name) > 0
      invariant forall i :: last < i < |vs| ==> CompareTo(name, vs[i].name) < 0
      decreases last - first
    {
      var mid := (first + last) / 2;
      var cmp := CompareTo(name, vs[mid].name);
      if cmp < 0 {
        AllAbove(vs, name, mid);
        last := mid - 1;
      } else if cmp > 0 {
        AllBelow(vs, name, mid);
        first := mid + 1;
      } else {
        AllAbove(vs, name, mid);
        AllBelow(vs, name, mid);
        return mid;
      }
    }
    return first;
  }

  // ------------------------------------------------------------------
  // What the search index is good for.

  /** A name that belongs between `a` and `b` is in neither. */
  ghost predicate Between(a: seq<Variable>, name: Name, b: seq<Variable>) {
    && (forall i :: 0 <= i < |a| ==> CompareTo(name, a[i].name) > 0)
    && (forall i :: 0 <= i < |b| ==> CompareTo(name, b[i].name) < 0)
  }

  lemma BetweenAbsent(a: seq<Variable>, name: Name, b: seq<Variable>)
    requires Between(a, name, b)
    ensures name !in Contents(a) && name !in Contents(b)
  {
    AbsentBelow(a, name);
    AbsentBelow(b, name);
  }

  lemma ContentsAround(a: seq<Variable>, v: Variable, b: seq<Variable>)
    requires Between(a, v.name, b)
    ensures Contents(a + [v] + b) == (Contents(a) + Contents(b))[v.name := v.value]
    ensures v.name !in Contents(a) + Contents(b)
    ensures Contents(a + b) == Contents(a) + Contents(b)
  {
    BetweenAbsent(a, v.name, b);
    ContentsAppend(a, b);
    ContentsAppend(a + [v], b);
    assert (a + [v])[..|a + [v]| - 1] == a;
    MergeUpdated(Contents(a), v.name, v.value, Contents(b));
  }

  lemma MergeUpdated(m: map<Name, Value>, n: Name, value: Value, k: map<Name, Value>)
    requires n !in k
    ensures m[n := value] + k == (m + k)[n := value]
  {
  }

  lemma SortedAround(a: seq<Variable>, v: Variable, b: seq<Variable>)
    requires Sorted(a + b) && Between(a, v.name, b)
    ensures Sorted(a + [v] + b)
  {
    var ws, us := a + [v] + b, a + b;
    assert forall i :: 0 <= i < |a| ==> ws[i] == us[i] == a[i];
    assert forall i :: |a| < i < |ws| ==> ws[i] == us[i - 1] == b[i - |a| - 1];
    forall i, j | 0 <= i < j < |ws| ensures CompareTo(ws[i].name, ws[j].name) < 0 {
      if j == |a| {
        CompareNames(v.name, a[i].name);
      }
    }
  }

  lemma SortedWithout(a: seq<Variable>, v: Variable, b: seq<Variable>)
    requires Sorted(a + [v] + b)
    ensures Sorted(a + b) && Between(a, v.name, b)
  {
    var ws, us := a + [v] + b, a + b;
    forall i, j | 0 <= i < j < |us| ensures CompareTo(us[i].name, us[j].name) < 0 {
      assert us[i] == ws[if i < |a| then i else i + 1] && us[j] == ws[if j < |a| then j else j + 1];
    }
    forall i | 0 <= i < |a| ensures CompareTo(v.name, a[i].name) > 0 {
      assert ws[i] == a[i] && ws[|a|] == v;
      CompareNames(v.name, a[i].name);
    }
    forall i | 0 <= i < |b| ensures CompareTo(v.name, b[i].name) < 0 {
      assert ws[|a| + 1 + i] == b[i] && ws[|a|] == v;
    }
  }

  /** Storing in place of, or at, an element: `a + old + b` with `old` of at most one element. */
  lemma Found(vs: seq<Variable>, name: Name, idx: nat)
    requires Sorted(vs) && Located(vs, name, idx) && idx < |vs|
    ensures name in Contents(vs) <==> CompareTo(name, vs[idx].name) == 0
    ensures CompareTo(name, vs[idx].name) == 0 ==> vs[idx].name == name && Contents(vs)[name] == vs[idx].value
  {
    var a, v, b := vs[..idx], vs[idx], vs[idx + 1..];
    assert vs == a + [v] + b;
    CompareNames(name, v.name);
    SortedWithout(a, v, b);
    ContentsAround(a, v, b);
    AbsentBelow(a, name);
    AbsentBelow(b, name);
  }

  lemma Overwritten(vs: seq<Variable>, idx: nat, value: Value)
    requires Sorted(vs) && idx < |vs|
    ensures Sorted(vs[idx := vs[idx].(value := value)])
    ensures Contents(vs[idx := vs[idx].(value := value)]) == Contents(vs)[vs[idx].name := value]
  {
    var a, v, b := vs[..idx], vs[idx], vs[idx + 1..];
    assert vs == a + [v] + b;
    assert vs[idx := v.(value := value)] == a + [v.(value := value)] + b;
    SortedWithout(a, v, b);
    SortedAround(a, v.(value := value), b);
    ContentsAround(a, v, b);
    ContentsAround(a, v.(value := value), b);
  }

  lemma Parted(vs: seq<Variable>, idx: nat)
    requires idx < |vs|
    ensures vs == vs[..idx] + [vs[idx]] + vs[idx + 1..]
  {
  }

  lemma Removed(a: seq<Variable>, v: Variable, b: seq<Variable>)
    requires Sorted(a + [v] + b)
    ensures Sorted(a + b) && Contents(a + b) == Contents(a + [v] + b) - {v.name}
  {
    SortedWithout(a, v, b);
    ContentsAround(a, v, b);
    AddThenRemove(Contents(a + b), v.name, v.value);
  }

  lemma AddThenRemove(m: map<Name, Value>, n: Name, value: Value)
    requires n !in m
    ensures m[n := value] - {n} == m
  {
  }

  lemma Inserted(vs: seq<Variable>, v: Variable, idx: nat)
    requires Sorted(vs) && idx <= |vs| && Between(vs[..idx], v.name, vs[idx..])
    ensures Sorted(vs[..idx] + [v] + vs[idx..])
    ensures Contents(vs[..idx] + [v] + vs[idx..]) == Contents(vs)[v.name := v.value]
    ensures v.name !in Contents(vs)
  {
    assert vs == vs[..idx] + vs[idx..];
    SortedAround(vs[..idx], v, vs[idx..]);
    ContentsAround(vs[..idx], v, vs[idx..]);
  }

  /** Where a name that is not in the table goes, given its search index. */
  function InsertionPoint(vs: seq<Variable>, name: Name, idx: int): (r: nat)
    requires Located(vs, name, idx)
    ensures r <= |vs|
  {
    if idx < 0 then 0 else if CompareTo(name, vs[idx].name) > 0 then idx + 1 else idx
  }

  lemma InsertionPointBetween(vs: seq<Variable>, name: Name, idx: int)
    requires Located(vs, name, idx) && (idx >= 0 ==> CompareTo(name, vs[idx].name) != 0)
    ensures var p := InsertionPoint(vs, name, idx); Between(vs[..p], name, vs[p..])
  {
  }
}
