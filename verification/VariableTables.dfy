/** Variable tables that cache the answers of the resolver below: src/main/expr/Variables.cpp. */
module VariableTables {
  import opened Basics
  import opened Names
  import opened Numerals
  import opened Evaluator
  import E = Environments
  import opened SortedTables

  /** A pointer to a resolver: null, one whose answers do not change, or a variable table. */
  datatype Resolver = NoResolver | Fixed(answer: Query -> Outcome) | Table(table: Variables)

  ghost function Footprint(r: Resolver): set<object>
    reads if r.Table? then {r.table} else {}
  {
    if r.Table? then r.table.Repr else {}
  }

  ghost predicate ValidResolver(r: Resolver)
    reads if r.Table? then {r.table} + r.table.Repr else {}
  {
    r.Table? ==> r.table.Valid()
  }

  ghost function LayersOf(r: Resolver): E.Layers
    requires ValidResolver(r)
    reads if r.Table? then {r.table} + r.table.Repr else {}
  {
    match r
    case NoResolver => E.Bottom
    case Fixed(answer) => E.Plain(answer)
    case Table(table) => table.Layers()
  }

  class Variables {
    var vVars: seq<Variable>
    var pResolver: Resolver
    ghost var Repr: set<object>

    ghost predicate Valid()
      reads this, Repr
      decreases Repr
      ensures Valid() ==> this in Repr
    {
      && this in Repr
      && Sorted(vVars)
      && (pResolver.Table? ==>
            && pResolver.table in Repr
            && pResolver.table.Repr < Repr
            && this !in pResolver.table.Repr
            && pResolver.table.Valid())
    }

    /** The table and the resolvers below it, as a value. */
    ghost function Layers(): (l: E.Layers)
      requires Valid()
      reads this, Repr
      decreases Repr
      ensures l.Cached? && l.vars == Contents(vVars)
    {
      E.Cached(Contents(vVars),
               match pResolver
               case NoResolver => E.Bottom
               case Fixed(answer) => E.Plain(answer)
               case Table(table) => table.Layers())
    }

    constructor (r: Resolver)
      requires ValidResolver(r)
      ensures Valid() && fresh(Repr - Footprint(r))
      ensures pResolver == r && Layers() == E.Cached(map[], LayersOf(r))
    {
      vVars, pResolver := [], r;
      Repr := {this} + Footprint(r);
    }

    method InsertVar(name: Name, value: Value, idx: nat)
      requires idx <= |vVars|
      modifies this`vVars
      ensures vVars == old(vVars)[..idx] + [Variable(name, value)] + old(vVars)[idx..]
    {
      vVars := vVars[..idx] + [Variable(name, value)] + vVars[idx..];
    }

    /** The array part of `set`. */
    method Store(name: Name, value: Value)
      requires Sorted(vVars)
      modifies this`vVars
      ensures Sorted(vVars) && Contents(vVars) == old(Contents(vVars))[name := value]
    {
      var idx := IndexOf(vVars, name);
      var at := 0;
      if idx >= 0 {
        at := idx;
        var cmp := CompareTo(name, vVars[idx].name);
        Found(vVars, name, idx);
        if cmp == 0 {
          Overwritten(vVars, idx, value);
          vVars := vVars[idx := vVars[idx].(value := value)];
          return;
        } else if cmp > 0 {
          at := idx + 1;
        }
      }
      InsertionPointBetween(vVars, name, idx);
      Inserted(vVars, Variable(name, value), at);
      InsertVar(name, value, at);
    }

    method Set(name: Name, value: Value)
      requires Valid()
      modifies this`vVars
      ensures Valid()
      ensures Layers() == E.Cached(old(Layers().vars)[name := value], old(Layers().lower))
    {
      Store(name, value);
    }

    /** `set_move`: the source value is left undefined. */
    method SetMove(name: Name, value: Value) returns (left: Value)
      requires Valid()
      modifies this`vVars
      ensures Valid() && left == Undef
      ensures Layers() == E.Cached(old(Layers().vars)[name := value], old(Layers().lower))
    {
      Store(name, value);
      left := Undef;
    }

    method Unset(name: Name) returns (r: Outcome)
      requires Valid()
      modifies this`vVars
      ensures Valid()
      ensures r == E.Removal(old(Layers().vars), name)
      ensures Layers() == E.Cached(old(Layers().vars) - {name}, old(Layers().lower))
    {
      r := Drop(name);
    }

    /** The array part of `unset`. */
    method Drop(name: Name) returns (r: Outcome)
      requires Sorted(vVars)
      modifies this`vVars
      ensures Sorted(vVars) && Contents(vVars) == old(Contents(vVars)) - {name}
      ensures r == E.Removal(old(Contents(vVars)), name)
    {
      var idx := IndexOf(vVars, name);
      if idx < 0 {
        return Err(NotFound);
      }
      Found(vVars, name, idx);
      CompareNames(name, vVars[idx].name);
      if vVars[idx].name != name {
        return Err(NotFound);
      }
      r := Ok(vVars[idx].value);
      Parted(vVars, idx);
      Removed(vVars[..idx], vVars[idx], vVars[idx + 1..]);
      vVars := vVars[..idx] + vVars[idx + 1..];
    }

    /** The name under which an indexed variable is looked up. */
    method SearchName(name: Name, indexes: seq<Int64>) returns (search: Name)
      ensures search == Flatten(name, indexes)
    {
      search := name;
      for i := 0 to |indexes|
        invariant search == Flatten(name, indexes[..i])
      {
        assert indexes[..i + 1][..i] == indexes[..i];
        SignedDecimalNulFree(indexes[i]);
        search := search + ("_" + SignedDecimal(indexes[i]));
      }
      assert indexes[..|indexes|] == indexes;
    }

    method Resolve(name: Name, indexes: seq<Int64>) returns (r: Outcome)
      requires Valid()
      modifies Repr
      decreases Repr, 1
      ensures Valid() && Repr == old(Repr)
      ensures (r, Layers()) == E.Step(old(Layers()), Query(name, indexes))
    {
      var search := SearchName(name, indexes);
      var hit, at := Lookup(search);
      if hit.Some? {
        return Ok(hit.value);
      }
      r := AskLower(name, indexes);
      if r.Ok? {
        Inserted(vVars, Variable(search, r.value), at);
        InsertVar(search, r.value, at);
      }
    }

    /** The stored value of a name, or the position at which to store it. */
    method Lookup(search: Name) returns (hit: Option<Value>, at: nat)
      requires Sorted(vVars)
      ensures hit == if search in Contents(vVars) then Some(Contents(vVars)[search]) else None
      ensures hit.None? ==> at <= |vVars| && Between(vVars[..at], search, vVars[at..])
    {
      var idx := IndexOf(vVars, search);
      at := 0;
      if idx >= 0 {
        at := idx;
        var cmp := CompareTo(search, vVars[idx].name);
        Found(vVars, search, idx);
        if cmp == 0 {
          return Some(vVars[idx].value), at;
        } else if cmp > 0 {
          at := idx + 1;
        }
      }
      InsertionPointBetween(vVars, search, idx);
      Inserted(vVars, Variable(search, Undef), at);
      hit := None;
    }

    /** The query is passed on as it came, not flattened. */
    method AskLower(name: Name, indexes: seq<Int64>) returns (r: Outcome)
      requires Valid()
      modifies Repr - {this}
      decreases Repr, 0
      ensures Valid()
      ensures (r, Layers().lower) == E.Step(old(Layers().lower), Query(name, indexes))
      ensures Layers().vars == old(Layers().vars)
    {
      match pResolver {
        case NoResolver =>
          r := Err(NotFound);
        case Fixed(answer) =>
          r := answer(Query(name, indexes));
        case Table(table) =>
          r := table.Resolve(name, indexes);
      }
    }
  }
}
