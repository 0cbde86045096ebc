/** Merging of bookmark lists: src/main/fmt/bookmarks.cpp. */
module Bookmarks {
  import opened Basics

  /** A bit mask, as the set of the bit positions that are set: `|`, `&` and `& ~` on
      masks are union, intersection and difference, and 0 is the empty set. */
  type Origin = set<nat>

  const BM_LSP: Origin := {0}

  datatype Bookmark = Bookmark(path: string, name: string, origin: Origin)

  /** A list of bookmarks, some of which may be null. */
  class BookmarkList {
    var items: seq<Option<Bookmark>>
  }

  class Counter {
    var value: nat
  }

  // ------------------------------------------------------------------
  // The specification of a merge.

  /** The bookmarks of a list, null entries left out. */
  function Live(items: seq<Option<Bookmark>>): (r: seq<Bookmark>)
    ensures |r| <= |items|
  {
    if items == [] then []
    else if items[0].None? then Live(items[1..])
    else [items[0].value] + Live(items[1..])
  }

  function AsItems(s: seq<Bookmark>): (r: seq<Option<Bookmark>>)
    ensures |r| == |s| && forall i :: 0 <= i < |s| ==> r[i] == Some(s[i])
  {
    seq(|s|, i requires 0 <= i < |s| => Some(s[i]))
  }

  function Paths(s: seq<Bookmark>): set<string> {
    if s == [] then {} else {s[0].path} + Paths(s[1..])
  }

  /** The origin of an old bookmark after the first step. */
  function Marked(o: Origin, present: bool, g: Origin): Origin {
    if present then if o * g == {} then o + g else o else o - g
  }

  function Mark(b: Bookmark, src: set<string>, g: Origin): Bookmark {
    b.(origin := Marked(b.origin, b.path in src, g))
  }

  function MarkAll(s: seq<Bookmark>, src: set<string>, g: Origin): (r: seq<Bookmark>)
    ensures |r| == |s|
  {
    if s == [] then [] else [Mark(s[0], src, g)] + MarkAll(s[1..], src, g)
  }

  /** The copy that is made of a bookmark of the source. */
  function New(b: Bookmark, g: Origin): Bookmark {
    Bookmark(b.path, b.name, g + BM_LSP)
  }

  /** The bookmarks of `src` whose path is not known yet, in order of first occurrence. */
  function Added(src: seq<Bookmark>, known: set<string>, g: Origin): seq<Bookmark> {
    if src == [] then []
    else if src[0].path in known then Added(src[1..], known, g)
    else [New(src[0], g)] + Added(src[1..], known + {src[0].path}, g)
  }

  function Survivors(s: seq<Bookmark>): (r: seq<Bookmark>)
    ensures |r| <= |s|
  {
    if s == [] then []
    else if s[0].origin == {} then Survivors(s[1..])
    else [s[0]] + Survivors(s[1..])
  }

  function Merged(dst: seq<Bookmark>, src: seq<Bookmark>, g: Origin): seq<Bookmark> {
    Survivors(MarkAll(dst, Paths(src), g)) + Added(src, Paths(dst), g)
  }

  /** How many bookmarks the first step re-marks. */
  function Remarked(s: seq<Bookmark>, src: set<string>, g: Origin): nat {
    if s == [] then 0
    else (if Mark(s[0], src, g) == s[0] then 0 else 1) + Remarked(s[1..], src, g)
  }

  /** What a merge adds to `*changes`: null entries dropped, bookmarks re-marked,
      bookmarks added, bookmarks removed. */
  function ChangeCount(dst: seq<Option<Bookmark>>, src: seq<Bookmark>, g: Origin): nat {
    var live := Live(dst);
    var marked := MarkAll(live, Paths(src), g);
    |dst| - |live| + Remarked(live, Paths(src), g) + |Added(src, Paths(live), g)|
    + |live| - |Survivors(marked)|
  }

  // ------------------------------------------------------------------
  // The code.

  method BookmarkExists(search: BookmarkList, path: string) returns (found: bool)
    ensures found <==> path in Paths(Live(search.items))
  {
    var n := |search.items|;
    for i := 0 to n
      invariant path in Paths(Live(search.items)) <==> path in Paths(Live(search.items[i..]))
    {
      assert search.items[i..][1..] == search.items[i + 1..];
      var bm := search.items[i];
      if bm.Some? && bm.value.path == path {
        return true;
      }
    }
    return false;
  }

  lemma {:induction false} LiveAppend(a: seq<Bookmark>, rest: seq<Option<Bookmark>>)
    ensures Live(AsItems(a) + rest) == a + Live(rest)
  {
    if a != [] {
      assert (AsItems(a) + rest)[1..] == AsItems(a[1..]) + rest;
      LiveAppend(a[1..], rest);
    } else {
      assert AsItems(a) + rest == rest;
    }
  }

  lemma {:induction false} PathsAppend(a: seq<Bookmark>, b: seq<Bookmark>)
    ensures Paths(a + b) == Paths(a) + Paths(b)
  {
    if a == [] {
      assert a + b == b;
    } else {
      assert (a + b)[1..] == a[1..] + b;
      PathsAppend(a[1..], b);
    }
  }

  lemma PathsMove(done: seq<Bookmark>, marked: Bookmark, bm: Bookmark, rest: seq<Bookmark>)
    requires marked.path == bm.path
    ensures Paths(done + [marked]) + Paths(rest) == Paths(done) + Paths([bm] + rest)
  {
    PathsAppend(done, [marked]);
    PathsAppend([bm], rest);
    assert Paths([marked]) == {bm.path} == Paths([bm]);
  }

  // The list is `AsItems(done) + rest` while `rest` is still to be visited.

  lemma MarkMove(done: seq<Bookmark>, bm: Bookmark, rest: seq<Bookmark>, src: set<string>, g: Origin)
    ensures done + [Mark(bm, src, g)] + MarkAll(rest, src, g) == done + MarkAll([bm] + rest, src, g)
  {
    assert ([bm] + rest)[1..] == rest;
  }

  method RemoveAt(list: BookmarkList, i: nat, ghost done: seq<Bookmark>, ghost rest: seq<Option<Bookmark>>)
    requires list.items == AsItems(done) + rest && i == |done| && rest != []
    modifies list
    ensures list.items == AsItems(done) + rest[1..]
  {
    list.items := list.items[..i] + list.items[i + 1..];
  }

  method ReplaceAt(list: BookmarkList, i: nat, b: Bookmark,
                   ghost done: seq<Bookmark>, ghost rest: seq<Option<Bookmark>>)
    requires list.items == AsItems(done) + rest && i == |done| && rest != []
    modifies list
    ensures list.items == AsItems(done + [b]) + rest[1..]
  {
    list.items := list.items[i := Some(b)];
  }

  lemma PathsWhileVisiting(done: seq<Bookmark>, rest: seq<Option<Bookmark>>)
    ensures Paths(Live(AsItems(done) + rest)) == Paths(done) + Paths(Live(rest))
  {
    LiveAppend(done, rest);
    PathsAppend(done, Live(rest));
  }

  /** Step 1: null entries go, origins are re-marked. */
  method MarkStep(dst: BookmarkList, src: BookmarkList, origin: Origin) returns (nc: nat)
    requires origin != {}
    modifies dst
    ensures src != dst ==> src.items == old(src.items)
    ensures dst.items == AsItems(MarkAll(old(Live(dst.items)), old(Paths(Live(src.items))), origin))
    ensures nc == old(|dst.items| - |Live(dst.items)| + Remarked(Live(dst.items), Paths(Live(src.items)), origin))
  {
    var i := 0;
    nc := 0;
    ghost var paths, done, rest := Paths(Live(src.items)), [], dst.items;
    while i < |dst.items|
      invariant |done| == i && dst.items == AsItems(done) + rest
      invariant src != dst ==> src.items == old(src.items)
      invariant src == dst ==> Paths(done) + Paths(Live(rest)) == paths
      invariant done + MarkAll(Live(rest), paths, origin) == MarkAll(old(Live(dst.items)), paths, origin)
      invariant nc + |rest| - |Live(rest)| + Remarked(Live(rest), paths, origin)
             == old(|dst.items| - |Live(dst.items)|) + Remarked(old(Live(dst.items)), paths, origin)
      decreases |rest|
    {
      var entry := dst.items[i];
      assert entry == rest[0];
      if entry.None? {
        RemoveAt(dst, i, done, rest);
        nc := nc + 1;
      } else {
        var bm := entry.value;
        PathsWhileVisiting(done, rest);
        var marked, changed := Remark(bm, src, origin);
        PathsMove(done, marked, bm, Live(rest[1..]));
        MarkMove(done, bm, Live(rest[1..]), paths, origin);
        ReplaceAt(dst, i, marked, done, rest);
        nc := nc + changed;
        i := i + 1;
        done := done + [marked];
      }
      rest := rest[1..];
    }
  }

  /** The flag update of step 1. */
  method Remark(bm: Bookmark, src: BookmarkList, origin: Origin) returns (marked: Bookmark, changed: nat)
    requires origin != {}
    ensures marked == Mark(bm, Paths(Live(src.items)), origin)
    ensures changed == if marked == bm then 0 else 1
  {
    marked, changed := bm, 0;
    var found := BookmarkExists(src, bm.path);
    if found {
      if bm.origin * origin == {} {
        marked := bm.(origin := bm.origin + origin);
        changed := 1;
        var x :| x in origin;
        assert x !in bm.origin by {
          assert x in bm.origin ==> x in bm.origin * origin;
        }
      }
    } else if bm.origin * origin != {} {
      marked := bm.(origin := bm.origin - origin);
      changed := 1;
    } else {
      Disjoint(bm.origin, origin);
    }
  }

  lemma Disjoint(o: Origin, g: Origin)
    requires o * g == {}
    ensures o - g == o
  {
    forall x | x in o ensures x !in g {
      assert x in g ==> x in o * g;
    }
  }

  lemma AddedMove(done: seq<Bookmark>, src: Bookmark, rest: seq<Bookmark>, g: Origin)
    requires src.path !in Paths(done)
    ensures done + [New(src, g)] + Added(rest, Paths(done + [New(src, g)]), g)
         == done + Added([src] + rest, Paths(done), g)
  {
    var b := New(src, g);
    PathsAppend(done, [b]);
    assert Paths([b]) == {src.path};
    assert ([src] + rest)[1..] == rest;
  }

  /** Step 2: bookmarks of `src` with a new path are appended. */
  method AddStep(dst: BookmarkList, src: BookmarkList, origin: Origin, ghost old_: seq<Bookmark>) returns (nc: nat)
    requires dst.items == AsItems(old_)
    modifies dst
    ensures dst.items == AsItems(old_ + Added(old(Live(src.items)), Paths(old_), origin))
    ensures nc == |Added(old(Live(src.items)), Paths(old_), origin)|
  {
    nc := 0;
    var n := |src.items|;
    ghost var source, done := src.items, old_;
    assert source[0..] == source;
    for i := 0 to n
      invariant dst.items == AsItems(done) && src.items == source
      invariant done + Added(Live(source[i..]), Paths(done), origin)
             == old_ + Added(Live(source), Paths(old_), origin)
      invariant nc == |done| - |old_|
    {
      var entry := src.items[i];
      assert source[i..][1..] == source[i + 1..];
      if entry.Some? {
        var bm := entry.value;
        LiveOfItems(done);
        var found := BookmarkExists(dst, bm.path);
        if !found {
          assert dst != src by {
            LiveContains(source, i);
          }
          AddedMove(done, bm, Live(source[i + 1..]), origin);
          AppendItem(dst, Bookmark(bm.path, bm.name, origin + BM_LSP), done);
          done := done + [New(bm, origin)];
          nc := nc + 1;
        }
      }
    }
  }

  method AppendItem(list: BookmarkList, b: Bookmark, ghost done: seq<Bookmark>)
    requires list.items == AsItems(done)
    modifies list
    ensures list.items == AsItems(done + [b])
  {
    list.items := list.items + [Some(b)];
  }

  lemma LiveOfItems(s: seq<Bookmark>)
    ensures Live(AsItems(s)) == s
  {
    LiveAppend(s, []);
    assert AsItems(s) + [] == AsItems(s);
  }

  lemma {:induction false} LiveContains(items: seq<Option<Bookmark>>, i: nat)
    requires i < |items| && items[i].Some?
    ensures items[i].value.path in Paths(Live(items))
  {
    if i > 0 {
      LiveContains(items[1..], i - 1);
    }
  }

  /** Step 3: bookmarks without an origin are removed; no entry is null here. */
  method PurgeStep(dst: BookmarkList, ghost old_: seq<Bookmark>) returns (nc: nat)
    requires dst.items == AsItems(old_)
    modifies dst
    ensures dst.items == AsItems(Survivors(old_))
    ensures nc == |old_| - |Survivors(old_)|
  {
    var i := 0;
    nc := 0;
    ghost var done, rest := [], old_;
    while i < |dst.items|
      invariant i == |done| && dst.items == AsItems(done) + AsItems(rest)
      invariant done + Survivors(rest) == Survivors(old_)
      invariant nc + |rest| - |Survivors(rest)| == |old_| - |Survivors(old_)|
      decreases |rest|
    {
      var bm := dst.items[i].value;
      assert AsItems(rest)[1..] == AsItems(rest[1..]);
      if bm.origin == {} {
        RemoveAt(dst, i, done, AsItems(rest));
        nc := nc + 1;
      } else {
        ItemsMove(done, rest);
        SurvivorsMove(done, rest);
        done := done + [bm];
        i := i + 1;
      }
      rest := rest[1..];
    }
  }

  lemma ItemsMove(done: seq<Bookmark>, rest: seq<Bookmark>)
    requires rest != []
    ensures AsItems(done + [rest[0]]) + AsItems(rest[1..]) == AsItems(done) + AsItems(rest)
  {
  }

  lemma SurvivorsMove(done: seq<Bookmark>, rest: seq<Bookmark>)
    requires rest != [] && rest[0].origin != {}
    ensures done + [rest[0]] + Survivors(rest[1..]) == done + Survivors(rest)
  {
  }

  lemma {:induction false} SurvivorsAppend(a: seq<Bookmark>, b: seq<Bookmark>)
    ensures Survivors(a + b) == Survivors(a) + Survivors(b)
  {
    if a == [] {
      assert a + b == b;
    } else {
      assert (a + b)[1..] == a[1..] + b;
      SurvivorsAppend(a[1..], b);
    }
  }

  lemma {:induction false} AddedSurvive(src: seq<Bookmark>, known: set<string>, g: Origin)
    ensures Survivors(Added(src, known, g)) == Added(src, known, g)
  {
    if src != [] {
      AddedSurvive(src[1..], known, g);
      AddedSurvive(src[1..], known + {src[0].path}, g);
      if src[0].path !in known {
        assert 0 in g + BM_LSP;
      }
    }
  }

  lemma {:induction false} MarkAllPaths(s: seq<Bookmark>, src: set<string>, g: Origin)
    ensures Paths(MarkAll(s, src, g)) == Paths(s)
  {
    if s != [] {
      MarkAllPaths(s[1..], src, g);
    }
  }

  method MergeBookmarks(dst: BookmarkList?, changes: Counter?, src: BookmarkList?, origin: Origin) returns (res: Status)
    modifies dst, changes
    ensures res == if dst == null || src == null || origin == {} then BadArguments else Success
    ensures res == BadArguments && dst != null ==> dst.items == old(dst.items)
    ensures res == BadArguments && changes != null ==> changes.value == old(changes.value)
    ensures res == Success ==> dst.items == AsItems(old(Merged(Live(dst.items), Live(src.items), origin)))
    ensures res == Success && changes != null ==>
              changes.value == old(changes.value + ChangeCount(dst.items, Live(src.items), origin))
  {
    if dst == null || src == null || origin == {} {
      return BadArguments;
    }
    ghost var live, source := Live(dst.items), Live(src.items);
    ghost var marked := MarkAll(live, Paths(source), origin);
    ghost var added := Added(source, Paths(live), origin);
    var n1 := MarkStep(dst, src, origin);
    LiveOfItems(marked);
    MarkAllPaths(live, Paths(source), origin);
    if src == dst {
      AddedNone(marked, Paths(live), origin);
      AddedNone(live, Paths(live), origin);
    }
    var n2 := AddStep(dst, src, origin, marked);
    var n3 := PurgeStep(dst, marked + added);
    SurvivorsAppend(marked, added);
    AddedSurvive(source, Paths(live), origin);
    if changes != null {
      changes.value := changes.value + n1 + n2 + n3;
    }
    return Success;
  }

  lemma {:induction false} AddedNone(src: seq<Bookmark>, known: set<string>, g: Origin)
    requires Paths(src) <= known
    ensures Added(src, known, g) == []
  {
    if src != [] {
      AddedNone(src[1..], known, g);
    }
  }
}
