/** What a merge of bookmark lists promises: include/lsp-plug.in/fmt/bookmarks.h. */
module MergeTheorems {
  import opened Basics
  import opened Bookmarks

  /** The origin under which a path is listed first. */
  function OriginAt(s: seq<Bookmark>, path: string): (r: Option<Origin>)
    ensures r.Some? <==> path in Paths(s)
  {
    if s == [] then None
    else if s[0].path == path then Some(s[0].origin)
    else OriginAt(s[1..], path)
  }

  predicate UniquePaths(s: seq<Bookmark>) {
    s != [] ==> s[0].path !in Paths(s[1..]) && UniquePaths(s[1..])
  }

  /** The meaning of a merge for one path, `present` in the source or not. */
  function MergeAt(was: Option<Origin>, present: bool, g: Origin): Option<Origin> {
    match was
    case Some(o) => var m := Marked(o, present, g); if m == {} then None else Some(m)
    case None => if present then Some(g + BM_LSP) else None
  }

  // ------------------------------------------------------------------
  // The parts of a merged list.

  lemma {:induction false} SurvivorsAt(s: seq<Bookmark>, src: set<string>, g: Origin, path: string)
    requires UniquePaths(s)
    ensures OriginAt(Survivors(MarkAll(s, src, g)), path)
         == match OriginAt(s, path)
            case Some(o) => MergeAt(Some(o), path in src, g)
            case None => None
    ensures UniquePaths(Survivors(MarkAll(s, src, g)))
    ensures Paths(Survivors(MarkAll(s, src, g))) <= Paths(s)
  {
    if s != [] {
      SurvivorsAt(s[1..], src, g, path);
    }
  }

  /** The added bookmarks: fresh distinct paths of the source, each as at its first occurrence. */
  lemma {:induction false} AddedAt(src: seq<Bookmark>, known: set<string>, g: Origin, path: string)
    ensures OriginAt(Added(src, known, g), path)
         == if path in Paths(src) && path !in known then Some(g + BM_LSP) else None
    ensures UniquePaths(Added(src, known, g))
    ensures Paths(Added(src, known, g)) == Paths(src) - known
  {
    if src != [] {
      AddedAt(src[1..], known, g, path);
      AddedAt(src[1..], known + {src[0].path}, g, path);
    }
  }

  // ------------------------------------------------------------------
  // A merged list, path by path and in order.

  lemma {:induction false} OriginAtAppend(a: seq<Bookmark>, b: seq<Bookmark>, path: string)
    ensures OriginAt(a + b, path) == if OriginAt(a, path).Some? then OriginAt(a, path) else OriginAt(b, path)
  {
    if a == [] {
      assert a + b == b;
    } else {
      assert (a + b)[1..] == a[1..] + b;
      OriginAtAppend(a[1..], b, path);
    }
  }

  lemma {:induction false} UniqueAppend(a: seq<Bookmark>, b: seq<Bookmark>)
    requires UniquePaths(a) && UniquePaths(b) && Paths(a) !! Paths(b)
    ensures UniquePaths(a + b)
  {
    if a == [] {
      assert a + b == b;
    } else {
      assert (a + b)[1..] == a[1..] + b;
      UniqueAppend(a[1..], b);
      PathsAppend(a[1..], b);
    }
  }

  /** Merging acts on each path alone, and keeps paths unique. */
  lemma MergePathwise(dst: seq<Bookmark>, src: seq<Bookmark>, g: Origin, path: string)
    requires UniquePaths(dst)
    ensures OriginAt(Merged(dst, src, g), path) == MergeAt(OriginAt(dst, path), path in Paths(src), g)
    ensures UniquePaths(Merged(dst, src, g))
  {
    SurvivorsAt(dst, Paths(src), g, path);
    AddedAt(src, Paths(dst), g, path);
    OriginAtAppend(Survivors(MarkAll(dst, Paths(src), g)), Added(src, Paths(dst), g), path);
    UniqueAppend(Survivors(MarkAll(dst, Paths(src), g)), Added(src, Paths(dst), g));
  }

  /** With one origin bit: the bit tells whether the path is in the source, every other bit
      of an old bookmark stays, a new bookmark also gets the LSP bit, and a path is listed
      exactly when a bit is left for it. */
  lemma OriginBitTellsPresence(dst: seq<Bookmark>, src: seq<Bookmark>, k: nat, path: string)
    requires UniquePaths(dst)
    ensures var was, now := OriginAt(dst, path), OriginAt(Merged(dst, src, {k}), path);
      && (now.Some? <==> path in Paths(src) || (was.Some? && was.value - {k} != {}))
      && (now.Some? ==> now.value != {} && (k in now.value <==> path in Paths(src)))
      && (now.Some? && was.Some? ==> now.value - {k} == was.value - {k})
      && (now.Some? && was.None? ==> now.value == {k} + BM_LSP)
  {
    MergePathwise(dst, src, {k}, path);
    var was := OriginAt(dst, path);
    if was.Some? {
      var m := Marked(was.value, path in Paths(src), {k});
      assert path in Paths(src) ==> k in m by {
        assert k in was.value ==> k in was.value * {k};
      }
      assert m - {k} == was.value - {k};
    }
  }

  /** The position of the first bookmark with a path. */
  function FirstIndex(s: seq<Bookmark>, path: string): (r: nat)
    requires path in Paths(s)
    ensures r < |s| && s[r].path == path
    ensures forall i :: 0 <= i < r ==> s[i].path != path
  {
    if s[0].path == path then 0 else 1 + FirstIndex(s[1..], path)
  }

  /** Added bookmarks have the paths and the names of first occurrences, in the order of the source,
      and the bits of the origin and the LSP bit. */
  lemma {:induction false} AddedInOrder(src: seq<Bookmark>, known: set<string>, g: Origin, i: nat)
    requires i < |Added(src, known, g)|
    ensures var b := Added(src, known, g)[i];
      && b.path in Paths(src) - known
      && b.name == src[FirstIndex(src, b.path)].name
      && b.origin == g + {0}
      && (forall j :: 0 <= j < i ==>
            var c := Added(src, known, g)[j];
            c.path in Paths(src) && FirstIndex(src, c.path) < FirstIndex(src, b.path))
  {
    var added := Added(src, known, g);
    if src[0].path in known {
      AddedInOrder(src[1..], known, g, i);
    } else if i > 0 {
      AddedInOrder(src[1..], known + {src[0].path}, g, i - 1);
      assert added[i] == Added(src[1..], known + {src[0].path}, g)[i - 1];
      forall j | 0 <= j < i
        ensures added[j].path in Paths(src) && FirstIndex(src, added[j].path) < FirstIndex(src, added[i].path)
      {
        if j > 0 {
          var c := Added(src[1..], known + {src[0].path}, g)[j - 1];
          AddedInOrder(src[1..], known + {src[0].path}, g, j - 1);
        }
      }
    }
  }

  function Shifted(ks: seq<nat>): (r: seq<nat>)
    ensures |r| == |ks|
  {
    seq(|ks|, i requires 0 <= i < |ks| => ks[i] + 1)
  }

  /** The positions of the bookmarks that keep an origin bit. */
  function Kept(dst: seq<Bookmark>, src: set<string>, g: Origin): (r: seq<nat>)
    ensures forall i :: 0 <= i < |r| ==> r[i] < |dst|
  {
    if dst == [] then []
    else
      var rest := Shifted(Kept(dst[1..], src, g));
      if Mark(dst[0], src, g).origin == {} then rest else [0] + rest
  }

  ghost predicate Increasing(ks: seq<nat>) {
    forall i, j :: 0 <= i < j < |ks| ==> ks[i] < ks[j]
  }

  lemma {:induction false} KeptIncreases(dst: seq<Bookmark>, src: set<string>, g: Origin)
    ensures Increasing(Kept(dst, src, g))
  {
    if dst != [] {
      KeptIncreases(dst[1..], src, g);
    }
  }

  lemma {:induction false} KeptExactly(dst: seq<Bookmark>, src: set<string>, g: Origin, k: nat)
    requires k < |dst|
    ensures k in Kept(dst, src, g) <==> Mark(dst[k], src, g).origin != {}
  {
    var rest := Kept(dst[1..], src, g);
    if k > 0 {
      KeptExactly(dst[1..], src, g, k - 1);
      ShiftedMember(rest, k);
      assert dst[k] == dst[1..][k - 1];
    }
  }

  lemma ShiftedMember(ks: seq<nat>, k: nat)
    requires k > 0
    ensures k in Shifted(ks) <==> k - 1 in ks
  {
    if k - 1 in ks {
      var i :| 0 <= i < |ks| && ks[i] == k - 1;
      assert Shifted(ks)[i] == k;
    }
  }

  lemma {:induction false} KeptMarked(dst: seq<Bookmark>, src: set<string>, g: Origin)
    ensures |Kept(dst, src, g)| == |Survivors(MarkAll(dst, src, g))|
    ensures forall i :: 0 <= i < |Kept(dst, src, g)| ==>
      Survivors(MarkAll(dst, src, g))[i] == Mark(dst[Kept(dst, src, g)[i]], src, g)
  {
    if dst != [] {
      KeptMarked(dst[1..], src, g);
    }
  }

  /** Old bookmarks that survive keep their order: they are the marked old bookmarks at exactly
      the positions that keep an origin bit, in increasing order. */
  lemma SurvivorsInOrder(dst: seq<Bookmark>, src: set<string>, g: Origin)
    ensures var kept, survivors := Kept(dst, src, g), Survivors(MarkAll(dst, src, g));
      && Increasing(kept)
      && (forall k :: 0 <= k < |dst| ==> (k in kept <==> Mark(dst[k], src, g).origin != {}))
      && |kept| == |survivors|
      && (forall i :: 0 <= i < |kept| ==> survivors[i] == Mark(dst[kept[i]], src, g))
      && (forall i :: 0 <= i < |kept| ==> survivors[i].path == dst[kept[i]].path)
      && (forall i :: 0 <= i < |kept| ==> survivors[i].name == dst[kept[i]].name)
  {
    KeptIncreases(dst, src, g);
    forall k | 0 <= k < |dst| ensures k in Kept(dst, src, g) <==> Mark(dst[k], src, g).origin != {} {
      KeptExactly(dst, src, g, k);
    }
    KeptMarked(dst, src, g);
  }

  // ------------------------------------------------------------------
  // The number of changes.

  /** The bits of an old bookmark: with the path in the source, its own and, if it has none of the
      origin, those of the origin; otherwise its own without those of the origin. */
  lemma MarkedBits(b: Bookmark, src: set<string>, g: Origin, x: nat)
    ensures x in Mark(b, src, g).origin
       <==> if b.path in src then x in b.origin || (x in g && forall y :: y in g ==> y !in b.origin)
            else x in b.origin && x !in g
  {
    assert b.origin * g == {} <==> forall y :: y in g ==> y !in b.origin by {
      assert forall y :: y in g && y in b.origin ==> y in b.origin * g;
    }
  }

  /** The positions of null entries. */
  function Nulls(items: seq<Option<Bookmark>>): set<nat> {
    set k: nat | k < |items| && items[k].None?
  }

  /** A bookmark of the source without a bit of the origin, or one that is not and has a bit of it. */
  predicate IsRemarked(b: Bookmark, src: set<string>, g: Origin) {
    b.path in src <==> b.origin * g == {}
  }

  function RemarkedAt(s: seq<Bookmark>, src: set<string>, g: Origin): set<nat> {
    set k: nat | k < |s| && IsRemarked(s[k], src, g)
  }

  /** A bookmark that is not in the source, and has no bits but those of the origin. */
  predicate IsDropped(b: Bookmark, src: set<string>, g: Origin) {
    b.path !in src && b.origin <= g
  }

  function DroppedAt(s: seq<Bookmark>, src: set<string>, g: Origin): set<nat> {
    set k: nat | k < |s| && IsDropped(s[k], src, g)
  }

  lemma {:induction false} LiveAppendItem(items: seq<Option<Bookmark>>, item: Option<Bookmark>)
    ensures |Live(items + [item])| == |Live(items)| + if item.None? then 0 else 1
  {
    if items == [] {
      assert items + [item] == [item];
    } else {
      assert (items + [item])[1..] == items[1..] + [item];
      LiveAppendItem(items[1..], item);
    }
  }

  lemma {:induction false} NullsCounted(items: seq<Option<Bookmark>>)
    ensures |items| - |Live(items)| == |Nulls(items)|
  {
    if items != [] {
      var n := |items| - 1;
      NullsCounted(items[..n]);
      LiveAppendItem(items[..n], items[n]);
      assert items == items[..n] + [items[n]];
      assert Nulls(items) == Nulls(items[..n]) + if items[n].None? then {n} else {};
    }
  }

  lemma OneRemarked(b: Bookmark, src: set<string>, g: Origin)
    requires g != {}
    ensures Remarked([b], src, g) == if IsRemarked(b, src, g) then 1 else 0
  {
    var x :| x in g;
    if b.path in src {
      assert x in b.origin ==> x in b.origin * g;
    } else if b.origin * g == {} {
      Disjoint(b.origin, g);
    } else {
      var y :| y in b.origin * g;
      assert y in b.origin && y !in b.origin - g;
    }
  }

  lemma RemarkedAtAppend(s: seq<Bookmark>, b: Bookmark, src: set<string>, g: Origin)
    ensures |RemarkedAt(s + [b], src, g)| == |RemarkedAt(s, src, g)| + if IsRemarked(b, src, g) then 1 else 0
  {
    assert RemarkedAt(s + [b], src, g) == RemarkedAt(s, src, g) + if IsRemarked(b, src, g) then {|s|} else {};
  }

  lemma {:induction false} RemarkedCounted(s: seq<Bookmark>, src: set<string>, g: Origin)
    requires g != {}
    ensures Remarked(s, src, g) == |RemarkedAt(s, src, g)|
  {
    if s != [] {
      var n := |s| - 1;
      RemarkedCounted(s[..n], src, g);
      RemarkedAppend(s[..n], [s[n]], src, g);
      OneRemarked(s[n], src, g);
      RemarkedAtAppend(s[..n], s[n], src, g);
      assert s == s[..n] + [s[n]];
    }
  }

  lemma OneDropped(b: Bookmark, src: set<string>, g: Origin)
    requires g != {}
    ensures |Survivors([Mark(b, src, g)])| == if IsDropped(b, src, g) then 0 else 1
  {
    var x :| x in g;
    if b.path in src {
      assert b.origin * g == {} ==> x in b.origin + g;
    } else if !(b.origin <= g) {
      var y :| y in b.origin && y !in g;
      assert y in b.origin - g;
    } else {
      assert b.origin - g == {};
    }
  }

  lemma {:induction false} MarkAllAppend(a: seq<Bookmark>, b: Bookmark, src: set<string>, g: Origin)
    ensures MarkAll(a + [b], src, g) == MarkAll(a, src, g) + [Mark(b, src, g)]
  {
    if a == [] {
      assert a + [b] == [b];
    } else {
      assert (a + [b])[1..] == a[1..] + [b];
      MarkAllAppend(a[1..], b, src, g);
    }
  }

  lemma DroppedAtAppend(s: seq<Bookmark>, b: Bookmark, src: set<string>, g: Origin)
    ensures |DroppedAt(s + [b], src, g)| == |DroppedAt(s, src, g)| + if IsDropped(b, src, g) then 1 else 0
  {
    assert DroppedAt(s + [b], src, g) == DroppedAt(s, src, g) + if IsDropped(b, src, g) then {|s|} else {};
  }

  lemma SurvivorsAppendMarked(s: seq<Bookmark>, b: Bookmark, src: set<string>, g: Origin)
    requires g != {}
    ensures |Survivors(MarkAll(s + [b], src, g))|
         == |Survivors(MarkAll(s, src, g))| + if IsDropped(b, src, g) then 0 else 1
  {
    MarkAllAppend(s, b, src, g);
    SurvivorsAppend(MarkAll(s, src, g), [Mark(b, src, g)]);
    OneDropped(b, src, g);
  }

  lemma {:induction false} DroppedCounted(s: seq<Bookmark>, src: set<string>, g: Origin)
    requires g != {}
    ensures |s| - |Survivors(MarkAll(s, src, g))| == |DroppedAt(s, src, g)|
  {
    if s != [] {
      var n := |s| - 1;
      DroppedCounted(s[..n], src, g);
      SurvivorsAppendMarked(s[..n], s[n], src, g);
      DroppedAtAppend(s[..n], s[n], src, g);
      assert s == s[..n] + [s[n]];
    }
  }

  lemma {:induction false} UniqueCounted(s: seq<Bookmark>)
    requires UniquePaths(s)
    ensures |Paths(s)| == |s|
  {
    if s != [] {
      UniqueCounted(s[1..]);
    }
  }

  /** The changes that are counted: every null entry, every old bookmark that gains or loses bits,
      every new path, and every old bookmark that goes. */
  lemma ChangesCounted(dst: seq<Option<Bookmark>>, src: seq<Bookmark>, g: Origin)
    requires g != {}
    ensures var live := Live(dst);
      ChangeCount(dst, src, g)
      == |Nulls(dst)| + |RemarkedAt(live, Paths(src), g)| + |Paths(src) - Paths(live)|
       + |DroppedAt(live, Paths(src), g)|
  {
    var live := Live(dst);
    NullsCounted(dst);
    RemarkedCounted(live, Paths(src), g);
    AddedAt(src, Paths(live), g, "");
    UniqueCounted(Added(src, Paths(live), g));
    DroppedCounted(live, Paths(src), g);
  }

  // ------------------------------------------------------------------
  // Repeating a merge.

  lemma {:induction false} NothingToMark(s: seq<Bookmark>, src: set<string>, g: Origin)
    requires Remarked(s, src, g) == 0
    ensures MarkAll(s, src, g) == s
  {
    if s != [] {
      NothingToMark(s[1..], src, g);
    }
  }

  lemma {:induction false} MarkedTwice(s: seq<Bookmark>, src: set<string>, g: Origin)
    requires g != {}
    ensures Remarked(Survivors(MarkAll(s, src, g)), src, g) == 0
    ensures Survivors(Survivors(MarkAll(s, src, g))) == Survivors(MarkAll(s, src, g))
  {
    if s != [] {
      MarkedTwice(s[1..], src, g);
      var o, m := s[0].origin, Mark(s[0], src, g).origin;
      if s[0].path in src {
        if o * g == {} {
          var x :| x in g;
          assert x in m * g;
        }
      } else {
        assert m * g == {};
        Disjoint(m, g);
      }
    }
  }

  lemma {:induction false} AddedMarkedTwice(src: seq<Bookmark>, known: set<string>, all: set<string>, g: Origin)
    requires g != {} && Paths(src) <= all
    ensures Remarked(Added(src, known, g), all, g) == 0
  {
    if src != [] {
      AddedMarkedTwice(src[1..], known, all, g);
      AddedMarkedTwice(src[1..], known + {src[0].path}, all, g);
      var x :| x in g;
      assert x in (g + BM_LSP) * g;
    }
  }

  lemma {:induction false} RemarkedAppend(a: seq<Bookmark>, b: seq<Bookmark>, src: set<string>, g: Origin)
    ensures Remarked(a + b, src, g) == Remarked(a, src, g) + Remarked(b, src, g)
  {
    if a == [] {
      assert a + b == b;
    } else {
      assert (a + b)[1..] == a[1..] + b;
      RemarkedAppend(a[1..], b, src, g);
    }
  }

  /** After a merge every path of the source is listed. */
  lemma SourceCovered(dst: seq<Bookmark>, src: seq<Bookmark>, g: Origin)
    requires g != {}
    ensures Paths(src) <= Paths(Merged(dst, src, g))
  {
    AddedAt(src, Paths(dst), g, "");
    PathsAppend(Survivors(MarkAll(dst, Paths(src), g)), Added(src, Paths(dst), g));
    PresentSurvive(dst, Paths(src), g);
  }

  lemma {:induction false} PresentSurvive(s: seq<Bookmark>, src: set<string>, g: Origin)
    requires g != {}
    ensures Paths(s) * src <= Paths(Survivors(MarkAll(s, src, g)))
  {
    if s != [] {
      PresentSurvive(s[1..], src, g);
      var x :| x in g;
      assert x in s[0].origin * g || s[0].origin * g != {} || x in s[0].origin + g;
    }
  }

  /** A second merge with the same source and origin changes nothing and counts nothing. */
  lemma MergeIdempotent(dst: seq<Bookmark>, src: seq<Bookmark>, g: Origin)
    requires g != {}
    ensures var once := Merged(dst, src, g);
      Merged(once, src, g) == once && ChangeCount(AsItems(once), src, g) == 0
  {
    var kept, added := Survivors(MarkAll(dst, Paths(src), g)), Added(src, Paths(dst), g);
    MarkedTwice(dst, Paths(src), g);
    AddedMarkedTwice(src, Paths(dst), Paths(src), g);
    RemarkedAppend(kept, added, Paths(src), g);
    NothingToMark(kept + added, Paths(src), g);
    AddedSurvive(src, Paths(dst), g);
    SurvivorsAppend(kept, added);
    SourceCovered(dst, src, g);
    AddedNone(src, Paths(kept + added), g);
    LiveOfItems(kept + added);
  }

  /** The count of changes is zero exactly when the list is left as it was, null entries included. */
  lemma NoChangesIffUnchanged(dst: seq<Option<Bookmark>>, src: seq<Bookmark>, g: Origin)
    ensures ChangeCount(dst, src, g) == 0 <==> AsItems(Merged(Live(dst), src, g)) == dst
  {
    var live := Live(dst);
    var marked, added := MarkAll(live, Paths(src), g), Added(src, Paths(live), g);
    if ChangeCount(dst, src, g) == 0 {
      NothingToMark(live, Paths(src), g);
      AllSurvive(live);
      AllLive(dst);
    }
    if AsItems(Survivors(marked) + added) == dst {
      LiveOfItems(Survivors(marked) + added);
      if added != [] {
        AddedAt(src, Paths(live), g, added[0].path);
        PathsAppend(Survivors(marked), added);
        assert false;
      }
      assert Survivors(marked) == live;
      AllSurvive(marked);
      MarkedSame(live, Paths(src), g);
    }
  }

  lemma {:induction false} AllSurvive(s: seq<Bookmark>)
    requires |Survivors(s)| == |s|
    ensures Survivors(s) == s
  {
    if s != [] {
      AllSurvive(s[1..]);
    }
  }

  lemma {:induction false} AllLive(items: seq<Option<Bookmark>>)
    requires |Live(items)| == |items|
    ensures AsItems(Live(items)) == items
  {
    if items != [] {
      AllLive(items[1..]);
    }
  }

  lemma {:induction false} MarkedSame(s: seq<Bookmark>, src: set<string>, g: Origin)
    requires MarkAll(s, src, g) == s
    ensures Remarked(s, src, g) == 0
  {
    if s != [] {
      assert MarkAll(s, src, g)[1..] == MarkAll(s[1..], src, g);
      MarkedSame(s[1..], src, g);
    }
  }

  // ------------------------------------------------------------------
  // Merging from two origins in either order.

  /** The two orders of merging (A, a) and (B, b) list the same paths with the same bits
      except for BM_LSP; that bit differs exactly for a path of one source alone whose old
      bookmark had no bit but the other source's. */
  lemma MergesNearlyCommute(dst: seq<Bookmark>, srcA: seq<Bookmark>, a: nat, srcB: seq<Bookmark>, b: nat, path: string)
    requires UniquePaths(dst)
    requires a != b && a !in BM_LSP && b !in BM_LSP
    ensures
      var ab := OriginAt(Merged(Merged(dst, srcA, {a}), srcB, {b}), path);
      var ba := OriginAt(Merged(Merged(dst, srcB, {b}), srcA, {a}), path);
      var was := OriginAt(dst, path);
      && (ab.Some? <==> ba.Some?)
      && (ab.Some? ==> ab.value - BM_LSP == ba.value - BM_LSP)
      && (ab == ba <==>
            !(was.Some? && ((path !in Paths(srcA) && path in Paths(srcB) && was.value <= {a})
                         || (path in Paths(srcA) && path !in Paths(srcB) && was.value <= {b}))))
  {
    MergePathwise(dst, srcA, {a}, path);
    MergePathwise(dst, srcB, {b}, path);
    MergePathwise(Merged(dst, srcA, {a}), srcB, {b}, path);
    MergePathwise(Merged(dst, srcB, {b}), srcA, {a}, path);
    NearlyCommuteAt(OriginAt(dst, path), path in Paths(srcA), a, path in Paths(srcB), b);
  }

  lemma NearlyCommuteAt(was: Option<Origin>, inA: bool, a: nat, inB: bool, b: nat)
    requires a != b && a !in BM_LSP && b !in BM_LSP
    ensures
      var ab := MergeAt(MergeAt(was, inA, {a}), inB, {b});
      var ba := MergeAt(MergeAt(was, inB, {b}), inA, {a});
      && (ab.Some? <==> ba.Some?)
      && (ab.Some? ==> ab.value - BM_LSP == ba.value - BM_LSP)
      && (ab == ba <==>
            !(was.Some? && ((!inA && inB && was.value <= {a}) || (inA && !inB && was.value <= {b}))))
  {
    if was.None? {
      MarkedBit({a} + BM_LSP, inB, b);
      MarkedBit({b} + BM_LSP, inA, a);
      assert {a} + BM_LSP - {b} == {a} + BM_LSP && {b} + BM_LSP - {a} == {b} + BM_LSP;
      assert {a} + BM_LSP + {b} == {b} + BM_LSP + {a};
    } else {
      var o := was.value;
      MarkedBit(o, inA, a);
      MarkedBit(o, inB, b);
      MarkedBit(if inA then o + {a} else o - {a}, inB, b);
      MarkedBit(if inB then o + {b} else o - {b}, inA, a);
      MarkedBit({a} + BM_LSP, inB, b);
      MarkedBit({b} + BM_LSP, inA, a);
      if inA && inB {
        assert o + {a} + {b} == o + {b} + {a};
      } else if inA {
        OneSided(o, a, b);
      } else if inB {
        OneSided(o, b, a);
      } else {
        assert o - {a} - {b} == o - {b} - {a};
      }
    }
  }

  /** A path only in the source of `x`, whose bit is x; the other source's bit is y. */
  lemma OneSided(o: Origin, x: nat, y: nat)
    requires x != y && x !in BM_LSP && y !in BM_LSP
    ensures o + {x} - {y} == (o - {y}) + {x}
    ensures x in o + {x} - {y}
    ensures o - {y} == {} <==> o <= {y}
    ensures o <= {y} ==> (o + {x} - {y}) - BM_LSP == ({x} + BM_LSP) - BM_LSP && 0 !in o + {x} - {y}
  {
    assert o - {y} == {} ==> o <= {y} by {
      forall z | z in o && o - {y} == {} ensures z == y {
        assert z != y ==> z in o - {y};
      }
    }
  }

  lemma MarkedBit(o: Origin, present: bool, k: nat)
    ensures Marked(o, present, {k}) == if present then o + {k} else o - {k}
  {
  }

  /** One bookmark that only `a` knew, merged from an empty source and from one that has it: the
      LSP bit tells the order. */
  lemma OrderTells(known: Bookmark, a: nat, b: nat)
    requires a != b && a !in BM_LSP && b !in BM_LSP && known.origin == {a}
    ensures OriginAt(Merged(Merged([known], [], {a}), [known], {b}), known.path)
         != OriginAt(Merged(Merged([known], [known], {b}), [], {a}), known.path)
  {
    assert known.path in Paths([known]) && known.path !in Paths([]);
    assert OriginAt([known], known.path) == Some({a});
    MergesNearlyCommute([known], [], a, [known], b, known.path);
  }
}
