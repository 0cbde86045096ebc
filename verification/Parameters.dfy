/** Ordered parameter lists: src/main/expr/Parameters.cpp. */
module ParameterLists {
  import opened Basics
  import opened Names
  import opened Numerals
  import opened Evaluator
  import E = Environments

  /** One parameter, with or without a name. */
  datatype NamedValue = NamedValue(name: Option<Name>, value: Value)

  class Param {
    const name: Option<Name>
    var value: Value

    constructor (name: Option<Name>, value: Value)
      ensures this.name == name && this.value == value
    {
      this.name, this.value := name, value;
    }

    function Content(): NamedValue
      reads this
    {
      NamedValue(name, value)
    }
  }

  function Contents(ps: seq<Param>): (r: seq<NamedValue>)
    reads ps
    ensures |r| == |ps|
  {
    seq(|ps|, i requires 0 <= i < |ps| reads ps => ps[i].Content())
  }

  // ------------------------------------------------------------------
  // Lookup.

  /** The first entry with a name. */
  function FirstNamed(es: seq<NamedValue>, name: Name): (r: Option<nat>)
    ensures r.Some? ==> r.value < |es|
  {
    if es == [] then None
    else if es[0].name == Some(name) then Some(0)
    else
      var r := FirstNamed(es[1..], name);
      if r.Some? then Some(r.value + 1) else None
  }

  lemma {:induction false} FirstNamedLeast(es: seq<NamedValue>, name: Name)
    ensures var r := FirstNamed(es, name);
      && (r.None? <==> forall i :: 0 <= i < |es| ==> es[i].name != Some(name))
      && (r.Some? ==> es[r.value].name == Some(name) && forall i :: 0 <= i < r.value ==> es[i].name != Some(name))
  {
    if es != [] {
      FirstNamedLeast(es[1..], name);
    }
  }

  lemma {:induction false} FirstNamedSkips(es: seq<NamedValue>, k: nat, name: Name)
    requires k <= |es| && forall i :: 0 <= i < k ==> es[i].name != Some(name)
    ensures FirstNamed(es, name)
         == (var r := FirstNamed(es[k..], name); if r.Some? then Some(r.value + k) else None)
  {
    if k == 0 {
      assert es[0..] == es;
    } else {
      assert es[1..][k - 1..] == es[k..];
      FirstNamedSkips(es[1..], k - 1, name);
    }
  }

  /** What the list answers as a resolver. */
  function ResolveIn(es: seq<NamedValue>): Query -> Outcome {
    (q: Query) => var r := FirstNamed(es, Flatten(q.name, q.indexes));
                  if r.None? then Err(NotFound) else Ok(es[r.value].value)
  }

  /** Entry `i` is the first one with the name. */
  predicate IsFirst(es: seq<NamedValue>, i: nat, name: Name) {
    i < |es| && es[i].name == Some(name) && forall j :: 0 <= j < i ==> es[j].name != Some(name)
  }

  predicate NoneNamed(es: seq<NamedValue>, name: Name) {
    forall i :: 0 <= i < |es| ==> es[i].name != Some(name)
  }

  /** The answer is the value of the first entry with the flattened name; it is missing exactly if
      no entry has that name. */
  lemma ResolvesFirst(es: seq<NamedValue>, q: Query)
    ensures forall i: nat :: IsFirst(es, i, E.Flat(q)) ==> ResolveIn(es)(q) == Ok(es[i].value)
    ensures NoneNamed(es, E.Flat(q)) <==> ResolveIn(es)(q) == Err(NotFound)
    ensures NoneNamed(es, E.Flat(q)) || exists i: nat :: IsFirst(es, i, E.Flat(q))
  {
    FirstNamedLeast(es, E.Flat(q));
    var r := FirstNamed(es, E.Flat(q));
    if r.Some? {
      assert IsFirst(es, r.value, E.Flat(q));
    }
  }

  /** A parameter list answers an indexed query as the query for the flattened name, so it can
      stand below any stack of variable tables. */
  lemma ParametersFlatten(es: seq<NamedValue>)
    ensures E.Flattening(E.Plain(ResolveIn(es)))
    ensures E.Coherent(E.Plain(ResolveIn(es)))
  {
    var l := E.Plain(ResolveIn(es));
    forall q ensures E.Answer(l, q) == E.Answer(l, Query(E.Flat(q), [])) {
      E.FlatOfFlat(q);
    }
    E.FlatteningIsCoherent(l);
  }

  // ------------------------------------------------------------------
  // Splicing.

  function Spliced<T>(xs: seq<T>, index: nat, ys: seq<T>): seq<T>
    requires index <= |xs|
  {
    xs[..index] + ys + xs[index..]
  }

  function Without<T>(xs: seq<T>, first: nat, last: nat): seq<T>
    requires first <= last <= |xs|
  {
    xs[..first] + xs[last..]
  }

  /** Removing what was inserted restores the list. */
  lemma InsertThenRemove<T>(xs: seq<T>, index: nat, ys: seq<T>)
    requires index <= |xs|
    ensures Without(Spliced(xs, index, ys), index, index + |ys|) == xs
  {
    assert xs == xs[..index] + xs[index..];
  }

  /** A position, or else one in a list that starts at `n`. */
  function OrBehind(r: Option<nat>, n: nat, at: Option<nat>): Option<nat> {
    if r.Some? then r else if at.Some? then Some(n + at.value) else None
  }

  lemma {:induction false} FirstNamedAppend(es: seq<NamedValue>, more: seq<NamedValue>, name: Name)
    ensures FirstNamed(es + more, name) == OrBehind(FirstNamed(es, name), |es|, FirstNamed(more, name))
  {
    if es == [] {
      assert es + more == more;
    } else {
      assert (es + more)[1..] == es[1..] + more;
      FirstNamedAppend(es[1..], more, name);
    }
  }

  lemma LookupAround(head: seq<NamedValue>, more: seq<NamedValue>, tail: seq<NamedValue>, name: Name)
    ensures var r, at := FirstNamed(head + tail, name), FirstNamed(more, name);
      FirstNamed(head + more + tail, name)
      == if r.Some? && r.value < |head| then r
         else if at.Some? then Some(|head| + at.value)
         else if r.Some? then Some(r.value + |more|)
         else None
  {
    LookupThree(head, more, tail, name);
    FirstNamedAppend(head, tail, name);
  }

  lemma LookupThree(head: seq<NamedValue>, more: seq<NamedValue>, tail: seq<NamedValue>, name: Name)
    ensures FirstNamed(head + more + tail, name)
         == OrBehind(OrBehind(FirstNamed(head, name), |head|, FirstNamed(more, name)),
                     |head| + |more|, FirstNamed(tail, name))
  {
    FirstNamedAppend(head + more, tail, name);
    FirstNamedAppend(head, more, name);
  }

  /** Inserted parameters hide the later ones of their names, and change no other lookup. */
  lemma InsertedLookup(es: seq<NamedValue>, index: nat, more: seq<NamedValue>, name: Name)
    requires index <= |es|
    ensures var r, at := FirstNamed(es, name), FirstNamed(more, name);
      FirstNamed(Spliced(es, index, more), name)
      == if r.Some? && r.value < index then r
         else if at.Some? then Some(index + at.value)
         else if r.Some? then Some(r.value + |more|)
         else None
  {
    var head, tail := es[..index], es[index..];
    assert es == head + tail;
    LookupAround(head, more, tail, name);
  }

  // ------------------------------------------------------------------
  // The code.

  /** The status of a range, as `insert` and `add` check it. */
  function RangeStatus(size: nat, first: Int64, last: Int64): Status {
    if first < 0 || first > last || last > size then InvalidValue else Success
  }

  /** The status of the range of `set`; a negative end stands for the end of the list. */
  function SetStatus(size: nat, first: Int64, last: Int64): Status {
    if first < 0 then Underflow
    else if last < 0 then if first > size then Overflow else Success
    else if last > size then Overflow
    else if first > last then InvalidValue
    else Success
  }

  /** Which ranges are refused, and how: `insert` and `add` tell nothing apart, `set` tells on which
      side of the list the range ends. */
  lemma RangeStatuses(size: nat, first: Int64, last: Int64)
    ensures RangeStatus(size, first, last) == if 0 <= first <= last <= size then Success else InvalidValue
    ensures SetStatus(size, first, last) == Success
       <==> 0 <= first <= size && (last < 0 || first <= last <= size)
    ensures SetStatus(size, first, last) == Underflow <==> first < 0
    ensures SetStatus(size, first, last) == InvalidValue <==> 0 <= last < first && last <= size
    ensures SetStatus(size, first, last) in {Success, Underflow, InvalidValue, Overflow}
  {
  }

  class Parameters {
    var vParams: seq<Param>

    /** The objects of the list are distinct. */
    ghost predicate Valid()
      reads this
    {
      NoDuplicates(vParams)
    }

    constructor ()
      ensures Valid() && vParams == []
    {
      vParams := [];
    }

    function Entries(): seq<NamedValue>
      reads this, vParams
    {
      Contents(vParams)
    }

    method LookupByName(name: Name) returns (r: Option<nat>)
      ensures r == FirstNamed(Entries(), name)
    {
      ghost var es := Entries();
      assert es[0..] == es;
      for i := 0 to |vParams|
        invariant forall j :: 0 <= j < i ==> es[j].name != Some(name)
      {
        assert es[i] == vParams[i].Content();
        if vParams[i].name == Some(name) {
          FirstNamedSkips(es, i, name);
          return Some(i);
        }
      }
      FirstNamedLeast(es, name);
      r := None;
    }

    method Resolve(name: Name, indexes: seq<Int64>) returns (r: Outcome)
      ensures r == ResolveIn(Entries())(Query(name, indexes))
    {
      var search := name;
      for i := 0 to |indexes|
        invariant search == Flatten(name, indexes[..i])
      {
        assert indexes[..i + 1][..i] == indexes[..i];
        SignedDecimalNulFree(indexes[i]);
        search := search + ("_" + SignedDecimal(indexes[i]));
      }
      assert indexes[..|indexes|] == indexes;
      var p := LookupByName(search);
      if p.None? {
        return Err(NotFound);
      }
      return Ok(vParams[p.value].value);
    }

    method GetAt(index: nat) returns (r: Outcome)
      ensures r == if index < |Entries()| then Ok(Entries()[index].value) else Err(InvalidValue)
    {
      if index >= |vParams| {
        return Err(InvalidValue);
      }
      return Ok(vParams[index].value);
    }

    method GetNamed(name: Name) returns (r: Outcome)
      ensures r == ResolveIn(Entries())(Query(name, []))
    {
      var p := LookupByName(name);
      if p.None? {
        return Err(NotFound);
      }
      return Ok(vParams[p.value].value);
    }

    /** Fresh copies of a part of a list. */
    static method Clones(source: seq<Param>, first: nat, last: nat) returns (copies: seq<Param>)
      requires first <= last <= |source|
      ensures |copies| == last - first && Contents(copies) == Contents(source)[first..last]
      ensures NoDuplicates(copies) && forall i :: 0 <= i < |copies| ==> fresh(copies[i])
    {
      copies := [];
      for i := first to last
        invariant |copies| == i - first && Contents(copies) == Contents(source)[first..i]
        invariant NoDuplicates(copies) && forall j :: 0 <= j < |copies| ==> fresh(copies[j])
      {
        var copy := new Param(source[i].name, source[i].value);
        ContentsAppend(copies, copy);
        copies := copies + [copy];
        assert Contents(source)[first..i] + [source[i].Content()] == Contents(source)[first..i + 1];
      }
    }

    /** Inserts copies of `p[first..last]`; `p` may be the receiver. */
    method InsertRange(index: nat, p: Parameters, first: Int64, last: Int64) returns (res: Status)
      requires Valid()
      modifies this
      ensures Valid()
      ensures res == if RangeStatus(|old(p.vParams)|, first, last) != Success then InvalidValue
                     else if index > |old(vParams)| then Overflow else Success
      ensures res != Success ==> vParams == old(vParams)
      ensures res == Success ==>
        && Entries() == Spliced(old(Entries()), index, old(p.Entries())[first..last])
        && Without(vParams, index, index + last - first) == old(vParams)
        && forall i :: index <= i < index + last - first ==> fresh(vParams[i])
    {
      if first < 0 || first > last || last > |p.vParams| {
        return InvalidValue;
      }
      if index > |vParams| {
        return Overflow;
      }
      var slice := vParams[..index];
      var copies := Clones(p.vParams, first, last);
      ContentsSpliced(vParams, index, copies);
      InsertThenRemove(vParams, index, copies);
      SplicedDistinct(vParams, index, copies);
      slice := slice + copies;
      slice := slice + vParams[index..];
      vParams := slice;
      return Success;
    }

    /** Appends copies of `p[first..last]`; `p` may be the receiver. */
    method AddRange(p: Parameters, first: Int64, last: Int64) returns (res: Status)
      requires Valid()
      modifies this
      ensures Valid()
      ensures res == RangeStatus(|old(p.vParams)|, first, last)
      ensures res != Success ==> vParams == old(vParams)
      ensures res == Success ==>
        && Entries() == old(Entries()) + old(p.Entries())[first..last]
        && old(vParams) <= vParams
        && forall i :: |old(vParams)| <= i < |vParams| ==> fresh(vParams[i])
    {
      if first < 0 || first > last || last > |p.vParams| {
        return InvalidValue;
      }
      ghost var was, source, es, ps := vParams, p.vParams, Entries(), p.Entries();
      for i := first to last
        invariant Valid()
        invariant was <= vParams && |vParams| == |was| + i - first
        invariant source <= p.vParams
        invariant Entries() == es + ps[first..i]
        invariant forall j :: |was| <= j < |vParams| ==> fresh(vParams[j])
      {
        assert p.vParams[i] == source[i] && ps[i] == old(source[i].Content());
        var copy := new Param(p.vParams[i].name, p.vParams[i].value);
        ContentsAppend(vParams, copy);
        vParams := vParams + [copy];
        assert ps[first..i] + [ps[i]] == ps[first..i + 1];
      }
      return Success;
    }

    /** Replaces the list by copies of `p[first..last]`; `p` may be the receiver. */
    method SetRange(p: Parameters, first: Int64, last: Int64) returns (res: Status)
      requires Valid()
      modifies this
      ensures Valid()
      ensures res == SetStatus(|old(p.vParams)|, first, last)
      ensures res != Success ==> vParams == old(vParams)
      ensures res == Success ==>
        && Entries() == old(p.Entries())[first..if last < 0 then |old(p.vParams)| else last]
        && forall i :: 0 <= i < |vParams| ==> fresh(vParams[i])
    {
      if first < 0 {
        return Underflow;
      }
      var end: int := last;
      if last < 0 {
        end := |p.vParams|;
        if first > end {
          return Overflow;
        }
      } else {
        if last > |p.vParams| {
          return Overflow;
        }
        if first > last {
          return InvalidValue;
        }
      }
      vParams := Clones(p.vParams, first, end);
      return Success;
    }

    method RemoveRange(first: Int64, last: Int64) returns (res: Status)
      requires Valid()
      modifies this
      ensures Valid()
      ensures res == if first < 0 || last > |old(vParams)| || last < first then InvalidValue else Success
      ensures vParams == if res == Success then Without(old(vParams), first, last) else old(vParams)
      ensures res == Success ==> Entries() == Without(old(Entries()), first, last)
    {
      if first < 0 || last > |vParams| {
        return InvalidValue;
      }
      if last - first < 0 {
        return InvalidValue;
      }
      ContentsWithout(vParams, first, last);
      vParams := vParams[..first] + vParams[last..];
      return Success;
    }
  }

  lemma ContentsAppend(ps: seq<Param>, p: Param)
    ensures Contents(ps + [p]) == Contents(ps) + [p.Content()]
  {
  }

  lemma ContentsSpliced(ps: seq<Param>, index: nat, more: seq<Param>)
    requires index <= |ps|
    ensures Contents(Spliced(ps, index, more)) == Spliced(Contents(ps), index, Contents(more))
  {
  }

  lemma ContentsWithout(ps: seq<Param>, first: nat, last: nat)
    requires first <= last <= |ps|
    ensures Contents(Without(ps, first, last)) == Without(Contents(ps), first, last)
  {
  }

  lemma SplicedDistinct(ps: seq<Param>, index: nat, more: seq<Param>)
    requires index <= |ps| && NoDuplicates(ps) && NoDuplicates(more)
    requires forall i, j :: 0 <= i < |ps| && 0 <= j < |more| ==> ps[i] != more[j]
    ensures NoDuplicates(Spliced(ps, index, more))
  {
  }
}
