/** String templates with `${...}` substitutions: `parse_string` of src/main/expr/Expression.cpp. */
module Templates {
  import opened Basics
  import opened Evaluator
  import opened Texts

  /** What parsing a substitution, from behind "${" on, gives: a tree and the offset behind
      the closing brace, or a failure. */
  datatype SubResult = Parsed(tree: Expr, next: nat) | Failed(status: Failure)

  /** The parser of substitutions, applied at an offset of the input. */
  type SubParser = (string, nat) -> SubResult

  ghost predicate Honest(sub: SubParser) {
    forall t: string, i: nat {:trigger sub(t, i)} :: i <= |t| && sub(t, i).Parsed? ==> i <= sub(t, i).next <= |t|
  }

  // ------------------------------------------------------------------
  // The compiler, as a function of the text that is left.

  function Joined(left: Option<Expr>, right: Expr): Expr {
    if left.None? then right else StrCat(left.value, right)
  }

  /** `prepend_string`, which appends. */
  function WithText(left: Option<Expr>, text: string, force: bool): Option<Expr> {
    if text == "" && !force then left else Some(Joined(left, Constant(Str(text))))
  }

  function Finished(left: Option<Expr>, text: string): Expr {
    WithText(left, text, left.None?).value
  }

  /** The scanner at an offset, behind the tree `left` and the pending literal text `text`;
      `dollar` tells that the last character was an unpaired '$'. */
  datatype Scanner = Scanning(i: nat, dollar: bool, left: Option<Expr>, text: string) | Broken(status: Failure)

  function Advance(sub: SubParser, t: string, s: Scanner): (r: Scanner)
    requires Honest(sub) && s.Scanning? && s.i < |t|
    ensures r.Scanning? ==> s.i < r.i <= |t|
  {
    var c := t[s.i];
    if !s.dollar then
      if c == '$' then s.(i := s.i + 1, dollar := true) else s.(i := s.i + 1, text := s.text + [c])
    else if c != '{' then
      Scanning(s.i + 1, false, s.left, if c == '$' then s.text + "$" else s.text + "$" + [c])
    else
      match sub(t, s.i + 1)
      case Failed(status) => Broken(status)
      case Parsed(tree, next) => Scanning(next, false, Some(Joined(WithText(s.left, s.text, false), tree)), "")
  }

  function Scan(sub: SubParser, t: string, s: Scanner): Result<Expr, Failure>
    requires Honest(sub) && (s.Scanning? ==> s.i <= |t|)
    decreases if s.Scanning? then |t| - s.i else 0
  {
    if s.Broken? then Err(s.status)
    else if s.i == |t| then Ok(Finished(s.left, s.text))
    else Scan(sub, t, Advance(sub, t, s))
  }

  function Compile(sub: SubParser, t: string, i: nat): Result<Expr, Failure>
    requires Honest(sub) && i <= |t|
  {
    Scan(sub, t, Scanning(i, false, None, ""))
  }

  method PrependString(expr: Option<Expr>, text: string, force: bool) returns (r: Option<Expr>)
    ensures r == WithText(expr, text, force)
  {
    if |text| <= 0 && !force {
      return expr;
    }
    var right := Constant(Str(text));
    if expr.None? {
      return Some(right);
    }
    return Some(StrCat(expr.value, right));
  }

  // ------------------------------------------------------------------
  // Writing a template.

  /** Literal text, or a substitution with its source text, the closing brace included. */
  datatype Segment = Text(s: string) | Subst(src: string, tree: Expr)

  function EscapedChar(c: char): string {
    if c == '$' then "$$" else [c]
  }

  /** Doubles every '$'. */
  function Escape(s: string): string {
    if s == "" then "" else EscapedChar(s[0]) + Escape(s[1..])
  }

  function SegmentText(seg: Segment): string {
    if seg.Text? then Escape(seg.s) else "${" + seg.src
  }

  function Render(segs: seq<Segment>): string {
    if segs == [] then "" else SegmentText(segs[0]) + Render(segs[1..])
  }

  predicate StandsAt(src: string, t: string, i: nat) {
    i <= |t| && src <= t[i..]
  }

  /** The sub-parser reads the source text as the tree, wherever it stands. */
  ghost predicate ReadsAs(sub: SubParser, src: string, tree: Expr) {
    forall t: string, i: nat :: StandsAt(src, t, i) ==> sub(t, i) == Parsed(tree, i + |src|)
  }

  ghost predicate Reads(sub: SubParser, segs: seq<Segment>) {
    segs != [] ==> (segs[0].Subst? ==> ReadsAs(sub, segs[0].src, segs[0].tree)) && Reads(sub, segs[1..])
  }

  /** The tree and the pending text behind one more segment. */
  function Extend(seg: Segment, left: Option<Expr>, text: string): (Option<Expr>, string) {
    if seg.Text? then (left, text + seg.s)
    else (Some(Joined(WithText(left, text, false), seg.tree)), "")
  }

  /** The tree that a list of segments compiles to. */
  function Spine(segs: seq<Segment>, left: Option<Expr>, text: string): Expr {
    if segs == [] then Finished(left, text)
    else
      var (left', text') := Extend(segs[0], left, text);
      Spine(segs[1..], left', text')
  }

  lemma EscapedCharScanned(sub: SubParser, t: string, i: nat, c: char, left: Option<Expr>, text: string)
    requires Honest(sub) && Occurs(t, i, EscapedChar(c))
    ensures Scan(sub, t, Scanning(i, false, left, text))
         == Scan(sub, t, Scanning(i + |EscapedChar(c)|, false, left, text + [c]))
  {
    First(t, i, EscapedChar(c));
    if c == '$' {
      assert t[i + 1] == EscapedChar(c)[1];
    }
  }

  lemma {:induction false} EscapedText(sub: SubParser, t: string, i: nat, s: string, left: Option<Expr>, text: string)
    requires Honest(sub) && Occurs(t, i, Escape(s))
    ensures Scan(sub, t, Scanning(i, false, left, text))
         == Scan(sub, t, Scanning(i + |Escape(s)|, false, left, text + s))
    decreases |s|
  {
    if s == "" {
      assert text + s == text;
    } else {
      Split(t, i, EscapedChar(s[0]), Escape(s[1..]));
      EscapedCharScanned(sub, t, i, s[0], left, text);
      EscapedText(sub, t, i + |EscapedChar(s[0])|, s[1..], left, text + [s[0]]);
      Regrouped(text, s);
    }
  }

  lemma Regrouped(text: string, s: string)
    requires s != ""
    ensures text + [s[0]] + s[1..] == text + s
  {
  }

  lemma SubstitutionRead(sub: SubParser, t: string, i: nat, seg: Segment, left: Option<Expr>, text: string)
    requires Honest(sub) && seg.Subst? && ReadsAs(sub, seg.src, seg.tree) && Occurs(t, i, "${" + seg.src)
    ensures Scan(sub, t, Scanning(i, false, left, text))
         == Scan(sub, t, Scanning(i + 2 + |seg.src|, false, Some(Joined(WithText(left, text, false), seg.tree)), ""))
  {
    Split(t, i, "${", seg.src);
    First(t, i, "${");
    assert t[i + 1] == "${"[1];
    assert t[i + 2..][..|seg.src|] == seg.src;
    assert StandsAt(seg.src, t, i + 2);
  }

  /** The scanner passes a segment: it stands behind it, with the segment taken in. */
  lemma SegmentScanned(sub: SubParser, t: string, i: nat, seg: Segment, left: Option<Expr>, text: string)
    requires Honest(sub) && (seg.Subst? ==> ReadsAs(sub, seg.src, seg.tree)) && Occurs(t, i, SegmentText(seg))
    ensures Scan(sub, t, Scanning(i, false, left, text))
         == Scan(sub, t, Scanning(i + |SegmentText(seg)|, false, Extend(seg, left, text).0, Extend(seg, left, text).1))
  {
    if seg.Text? {
      EscapedText(sub, t, i, seg.s, left, text);
    } else {
      SubstitutionRead(sub, t, i, seg, left, text);
    }
  }

  /** The segments stand in `t` one behind another, from offset `i` to the end. */
  ghost predicate Stand(t: string, i: nat, segs: seq<Segment>)
    decreases |segs|
  {
    if segs == [] then i == |t|
    else Occurs(t, i, SegmentText(segs[0])) && Stand(t, i + |SegmentText(segs[0])|, segs[1..])
  }

  lemma {:induction false} RenderedStand(t: string, i: nat, segs: seq<Segment>)
    requires i + |Render(segs)| == |t| && Occurs(t, i, Render(segs))
    ensures Stand(t, i, segs)
    decreases |segs|
  {
    if segs != [] {
      Split(t, i, SegmentText(segs[0]), Render(segs[1..]));
      RenderedStand(t, i + |SegmentText(segs[0])|, segs[1..]);
    }
  }

  lemma {:induction false} ScanRendered(sub: SubParser, t: string, i: nat, segs: seq<Segment>,
                                        left: Option<Expr>, text: string)
    requires Honest(sub) && Reads(sub, segs) && Stand(t, i, segs)
    ensures i <= |t| && Scan(sub, t, Scanning(i, false, left, text)) == Ok(Spine(segs, left, text))
    decreases |segs|
  {
    if segs != [] {
      SegmentScanned(sub, t, i, segs[0], left, text);
      var (left', text') := Extend(segs[0], left, text);
      ScanRendered(sub, t, i + |SegmentText(segs[0])|, segs[1..], left', text');
    }
  }

  // ------------------------------------------------------------------
  // The meaning of a template.

  type Partial<S> = (Result<string, Failure>, S)

  /** The segments from left to right: literal text as it is, the value of a substitution as
      text; the first failure ends it. */
  function Concatenate<S>(ops: Ops, bound: bool, segs: seq<Segment>, p: Partial<S>,
                          step: (S, Query) -> (Outcome, S)): Partial<S>
    decreases |segs|
  {
    if p.0.Err? || segs == [] then p
    else if segs[0].Text? then Concatenate(ops, bound, segs[1..], (Ok(p.0.value + segs[0].s), p.1), step)
    else
      var (v, s) := Eval(ops, bound, segs[0].tree, p.1, step);
      Concatenate(ops, bound, segs[1..],
                  (if v.Err? then Err(v.error) else Ok(p.0.value + TextOf(ops, v.value)), s), step)
  }

  /** The text of the tree `left`, if there is one, with `text` behind it. */
  function TextSoFar<S>(ops: Ops, bound: bool, left: Option<Expr>, text: string, s: S,
                        step: (S, Query) -> (Outcome, S)): Partial<S>
  {
    if left.None? then (Ok(text), s)
    else
      var (v, s1) := Eval(ops, bound, left.value, s, step);
      (if v.Err? then Err(v.error) else Ok(TextOf(ops, v.value) + text), s1)
  }

  lemma TextBehind<S>(ops: Ops, bound: bool, left: Expr, text: string, s: S, step: (S, Query) -> (Outcome, S))
    ensures TextSoFar(ops, bound, Some(StrCat(left, Constant(Str(text)))), "", s, step)
         == TextSoFar(ops, bound, Some(left), text, s, step)
  {
    var (v, s1) := Eval(ops, bound, left, s, step);
    if v.Ok? {
      assert Eval(ops, bound, Constant(Str(text)), s1, step) == (Ok(Str(text)), s1);
      assert TextOf(ops, v.value) + text + "" == TextOf(ops, v.value) + text;
    }
  }

  /** Prepending a text, forced or not, puts it behind the text of the tree. */
  lemma PrependedText<S>(ops: Ops, bound: bool, left: Option<Expr>, text: string, force: bool,
                         s: S, step: (S, Query) -> (Outcome, S))
    ensures TextSoFar(ops, bound, WithText(left, text, force), "", s, step)
         == TextSoFar(ops, bound, left, text, s, step)
  {
    if text != "" || force {
      if left.Some? {
        assert WithText(left, text, force) == Some(Joined(left, Constant(Str(text))));
        TextBehind(ops, bound, left.value, text, s, step);
      } else {
        assert text + "" == text;
      }
    }
  }

  lemma FinishedText<S>(ops: Ops, bound: bool, left: Option<Expr>, text: string,
                        s: S, step: (S, Query) -> (Outcome, S))
    ensures TextSoFar(ops, bound, Some(Finished(left, text)), "", s, step) == TextSoFar(ops, bound, left, text, s, step)
  {
    PrependedText(ops, bound, left, text, left.None?, s, step);
    if left.Some? && text == "" {
      assert Finished(left, text) == left.value;
    }
  }

  /** The next segment on top of the text so far. */
  function Next<S>(ops: Ops, bound: bool, seg: Segment, p: Partial<S>, step: (S, Query) -> (Outcome, S)): Partial<S> {
    if p.0.Err? then p
    else if seg.Text? then (Ok(p.0.value + seg.s), p.1)
    else
      var (v, s) := Eval(ops, bound, seg.tree, p.1, step);
      (if v.Err? then Err(v.error) else Ok(p.0.value + TextOf(ops, v.value)), s)
  }

  lemma MoreText<S>(ops: Ops, bound: bool, left: Option<Expr>, text: string, more: string,
                    s: S, step: (S, Query) -> (Outcome, S))
    ensures TextSoFar(ops, bound, left, text + more, s, step)
         == Next(ops, bound, Text(more), TextSoFar(ops, bound, left, text, s, step), step)
  {
    if left.Some? {
      var v := Eval(ops, bound, left.value, s, step).0;
      if v.Ok? {
        assert TextOf(ops, v.value) + (text + more) == TextOf(ops, v.value) + text + more;
      }
    }
  }

  lemma MoreTree<S>(ops: Ops, bound: bool, left: Option<Expr>, text: string, seg: Segment,
                    s: S, step: (S, Query) -> (Outcome, S))
    requires seg.Subst?
    ensures TextSoFar(ops, bound, Some(Joined(WithText(left, text, false), seg.tree)), "", s, step)
         == Next(ops, bound, seg, TextSoFar(ops, bound, left, text, s, step), step)
  {
    var all := WithText(left, text, false);
    var p := TextSoFar(ops, bound, left, text, s, step);
    if all.None? {
      var v := Eval(ops, bound, seg.tree, s, step).0;
      if v.Ok? {
        assert TextOf(ops, v.value) + "" == "" + TextOf(ops, v.value);
      }
    } else {
      assert text == "" || left.None? ==> all == Some(Finished(left, text));
      FinishedText(ops, bound, left, text, s, step);
      JoinedText(ops, bound, all.value, seg, s, step);
    }
  }

  lemma JoinedText<S>(ops: Ops, bound: bool, left: Expr, seg: Segment, s: S, step: (S, Query) -> (Outcome, S))
    requires seg.Subst?
    ensures TextSoFar(ops, bound, Some(StrCat(left, seg.tree)), "", s, step)
         == Next(ops, bound, seg, TextSoFar(ops, bound, Some(left), "", s, step), step)
  {
    var (v, s1) := Eval(ops, bound, left, s, step);
    if v.Ok? {
      assert TextOf(ops, v.value) + "" == TextOf(ops, v.value);
      var w := Eval(ops, bound, seg.tree, s1, step).0;
      if w.Ok? {
        var text := TextOf(ops, v.value) + TextOf(ops, w.value);
        assert text + "" == text;
      }
    }
  }

  lemma {:induction false} SpineText<S>(ops: Ops, bound: bool, segs: seq<Segment>, left: Option<Expr>, text: string,
                                        s: S, step: (S, Query) -> (Outcome, S))
    ensures TextSoFar(ops, bound, Some(Spine(segs, left, text)), "", s, step)
         == Concatenate(ops, bound, segs, TextSoFar(ops, bound, left, text, s, step), step)
    decreases |segs|
  {
    if segs == [] {
      FinishedText(ops, bound, left, text, s, step);
    } else if segs[0].Text? {
      SpineText(ops, bound, segs[1..], left, text + segs[0].s, s, step);
      MoreText(ops, bound, left, text, segs[0].s, s, step);
    } else {
      SpineText(ops, bound, segs[1..], Some(Joined(WithText(left, text, false), segs[0].tree)), "", s, step);
      MoreTree(ops, bound, left, text, segs[0], s, step);
    }
  }

  /** A tree whose value is a string. */
  predicate IsText(e: Expr) {
    e.StrCat? || (e.Constant? && e.v.Str?)
  }

  function SubstCount(segs: seq<Segment>): nat {
    if segs == [] then 0 else (if segs[0].Subst? then 1 else 0) + SubstCount(segs[1..])
  }

  /** Without literal text. */
  predicate Bare(segs: seq<Segment>)
    decreases |segs|
  {
    segs != [] ==> (segs[0].Text? ==> segs[0].s == "") && Bare(segs[1..])
  }

  lemma {:induction false} SpineShape(segs: seq<Segment>, left: Option<Expr>, text: string)
    ensures IsText(Spine(segs, left, text)) ||
      (text == "" && Bare(segs) && (if left.None? then SubstCount(segs) == 1 else SubstCount(segs) == 0))
    decreases |segs|
  {
    if segs != [] {
      if segs[0].Text? {
        SpineShape(segs[1..], left, text + segs[0].s);
      } else {
        SpineShape(segs[1..], Some(Joined(WithText(left, text, false), segs[0].tree)), "");
        if left.Some? || text != "" {
          TextStays(segs[1..], Joined(WithText(left, text, false), segs[0].tree));
        }
      }
    }
  }

  lemma {:induction false} TextStays(segs: seq<Segment>, left: Expr)
    requires IsText(left)
    ensures IsText(Spine(segs, Some(left), ""))
    ensures forall text :: IsText(Spine(segs, Some(left), text))
    decreases |segs|
  {
    if segs != [] {
      if segs[0].Text? {
        TextStays(segs[1..], left);
      } else {
        forall text ensures IsText(Spine(segs, Some(left), text)) {
          TextStays(segs[1..], Joined(WithText(Some(left), text, false), segs[0].tree));
        }
      }
    }
  }

  /** The sole substitution of a template without literal text. */
  function Sole(segs: seq<Segment>): Expr
    requires SubstCount(segs) == 1
  {
    if segs[0].Subst? then segs[0].tree else Sole(segs[1..])
  }

  lemma {:induction false} BareSpine(segs: seq<Segment>, left: Option<Expr>)
    requires Bare(segs) && SubstCount(segs) == if left.None? then 1 else 0
    ensures Spine(segs, left, "") == if left.None? then Sole(segs) else left.value
    decreases |segs|
  {
    if segs != [] {
      if segs[0].Text? {
        assert "" + segs[0].s == "";
        BareSpine(segs[1..], left);
      } else {
        BareSpine(segs[1..], Some(segs[0].tree));
      }
    }
  }

  function AsValue<S>(p: Partial<S>): (Outcome, S) {
    (if p.0.Err? then Err(p.0.error) else Ok(Str(p.0.value)), p.1)
  }

  lemma TextTreeValue<S>(ops: Ops, bound: bool, e: Expr, s: S, step: (S, Query) -> (Outcome, S))
    requires IsText(e)
    ensures Eval(ops, bound, e, s, step) == AsValue(TextSoFar(ops, bound, Some(e), "", s, step))
  {
    var v := Eval(ops, bound, e, s, step).0;
    if v.Ok? {
      assert TextOf(ops, v.value) + "" == TextOf(ops, v.value);
    }
  }

  /** The meaning of segments: a lone substitution keeps its value and type, anything else is
      put together from left to right. */
  function SegmentsMeaning<S>(ops: Ops, bound: bool, segs: seq<Segment>,
                              s: S, step: (S, Query) -> (Outcome, S)): (Outcome, S)
  {
    if Bare(segs) && SubstCount(segs) == 1 then Eval(ops, bound, Sole(segs), s, step)
    else AsValue(Concatenate(ops, bound, segs, (Ok(""), s), step))
  }

  lemma SpineMeaning<S>(ops: Ops, bound: bool, segs: seq<Segment>, s: S, step: (S, Query) -> (Outcome, S))
    ensures Eval(ops, bound, Spine(segs, None, ""), s, step) == SegmentsMeaning(ops, bound, segs, s, step)
  {
    if Bare(segs) && SubstCount(segs) == 1 {
      BareSpine(segs, None);
    } else {
      SpineShape(segs, None, "");
      TextTreeValue(ops, bound, Spine(segs, None, ""), s, step);
      SpineText(ops, bound, segs, None, "", s, step);
    }
  }

  /** Compiling preserves the meaning of any list of segments that is written as a template. */
  lemma TemplateMeaning<S>(ops: Ops, bound: bool, sub: SubParser, segs: seq<Segment>,
                           s: S, step: (S, Query) -> (Outcome, S))
    requires Honest(sub) && Reads(sub, segs)
    ensures var r := Compile(sub, Render(segs), 0);
      r.Ok? && Eval(ops, bound, r.value, s, step) == SegmentsMeaning(ops, bound, segs, s, step)
  {
    RenderedStand(Render(segs), 0, segs);
    ScanRendered(sub, Render(segs), 0, segs, None, "");
    SpineMeaning(ops, bound, segs, s, step);
  }

  // ------------------------------------------------------------------
  // Every template.

  /** The segments that the scanner takes from offset `i` on, or the failure of a substitution.
      A dollar sign goes if another one or nothing follows, and stays before any other character. */
  function SegmentsAt(sub: SubParser, t: string, i: nat): Result<seq<Segment>, Failure>
    requires Honest(sub) && i <= |t|
    decreases |t| - i
  {
    if i == |t| || t[i..] == "$" then Ok([])
    else if t[i] != '$' then Before(Text([t[i]]), SegmentsAt(sub, t, i + 1))
    else if t[i + 1] != '{' then
      Before(Text(if t[i + 1] == '$' then "$" else ['$', t[i + 1]]), SegmentsAt(sub, t, i + 2))
    else
      match sub(t, i + 2)
      case Failed(status) => Err(status)
      case Parsed(tree, next) => Before(Subst(t[i + 2..next], tree), SegmentsAt(sub, t, next))
  }

  function Before(seg: Segment, segs: Result<seq<Segment>, Failure>): Result<seq<Segment>, Failure> {
    if segs.Err? then segs else Ok([seg] + segs.value)
  }

  function SpineOf(segs: Result<seq<Segment>, Failure>, left: Option<Expr>, text: string): Result<Expr, Failure> {
    if segs.Err? then Err(segs.error) else Ok(Spine(segs.value, left, text))
  }

  lemma SpineBefore(seg: Segment, segs: Result<seq<Segment>, Failure>, left: Option<Expr>, text: string)
    ensures var (left', text') := Extend(seg, left, text);
      SpineOf(Before(seg, segs), left, text) == SpineOf(segs, left', text')
  {
    if segs.Ok? {
      assert ([seg] + segs.value)[1..] == segs.value;
    }
  }

  /** The scanner compiles every template to the spine of its segments. */
  lemma {:induction false} ScanSegments(sub: SubParser, t: string, i: nat, left: Option<Expr>, text: string)
    requires Honest(sub) && i <= |t|
    ensures Scan(sub, t, Scanning(i, false, left, text)) == SpineOf(SegmentsAt(sub, t, i), left, text)
    decreases |t| - i
  {
    if i < |t| {
      assert t[i..] == "$" <==> t[i] == '$' && i + 1 == |t|;
      if t[i] != '$' {
        SpineBefore(Text([t[i]]), SegmentsAt(sub, t, i + 1), left, text);
        ScanSegments(sub, t, i + 1, left, text + [t[i]]);
      } else if i + 1 < |t| {
        ScanDollar(sub, t, i, left, text);
      }
    }
  }

  lemma {:induction false} ScanDollar(sub: SubParser, t: string, i: nat, left: Option<Expr>, text: string)
    requires Honest(sub) && i + 1 < |t| && t[i] == '$'
    ensures Scan(sub, t, Scanning(i, false, left, text)) == SpineOf(SegmentsAt(sub, t, i), left, text)
    decreases |t| - i, 0
  {
    assert |t[i..]| > 1;
    if t[i + 1] != '{' {
      var s := if t[i + 1] == '$' then "$" else ['$', t[i + 1]];
      assert text + s == if t[i + 1] == '$' then text + "$" else text + "$" + [t[i + 1]];
      SpineBefore(Text(s), SegmentsAt(sub, t, i + 2), left, text);
      ScanSegments(sub, t, i + 2, left, text + s);
    } else if sub(t, i + 2).Parsed? {
      var tree, next := sub(t, i + 2).tree, sub(t, i + 2).next;
      SpineBefore(Subst(t[i + 2..next], tree), SegmentsAt(sub, t, next), left, text);
      var left' := Some(Joined(WithText(left, text, false), tree));
      ScanSegments(sub, t, next, left', "");
    } else {
      assert Scan(sub, t, Scanning(i + 1, true, left, text)) == Err(sub(t, i + 2).status);
    }
  }

  /** For every template and every parser of substitutions: compiling fails exactly as the first
      substitution that fails, and otherwise keeps the meaning of the segments. */
  lemma EveryTemplateMeaning<S>(ops: Ops, bound: bool, sub: SubParser, t: string,
                                s: S, step: (S, Query) -> (Outcome, S))
    requires Honest(sub)
    ensures var segs, r := SegmentsAt(sub, t, 0), Compile(sub, t, 0);
      if segs.Err? then r == Err(segs.error)
      else r.Ok? && Eval(ops, bound, r.value, s, step) == SegmentsMeaning(ops, bound, segs.value, s, step)
  {
    ScanSegments(sub, t, 0, None, "");
    var segs := SegmentsAt(sub, t, 0);
    if segs.Ok? {
      SpineMeaning(ops, bound, segs.value, s, step);
    }
  }

  /** Any text, with its dollar signs doubled, is a template for itself. */
  lemma EscapedTemplate<S>(ops: Ops, bound: bool, sub: SubParser, text: string, s: S, step: (S, Query) -> (Outcome, S))
    requires Honest(sub)
    ensures Compile(sub, Escape(text), 0) == Ok(Constant(Str(text)))
    ensures Eval(ops, bound, Compile(sub, Escape(text), 0).value, s, step) == (Ok(Str(text)), s)
  {
    assert "" + text == text;
    EscapedText(sub, Escape(text), 0, text, None, "");
  }
}
