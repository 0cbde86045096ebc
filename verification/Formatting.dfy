/** Formatting with a template: `read_specifier`, `emit_parameter` and `format` of
    src/main/expr/format.cpp. */
module Formatting {
  import opened Basics
  import opened Evaluator
  import N = NumberText
  import opened Specifiers
  import opened Printing
  import opened ParameterLists
  import T = Tokenizers

  /** The output sequence. */
  class Sink {
    var text: string

    constructor ()
      ensures text == ""
    {
      text := "";
    }

    method Write(s: string)
      modifies this
      ensures text == old(text) + s
    {
      text := text + s;
    }
  }

  // ------------------------------------------------------------------
  // The text of a value.

  predicate IsIntKind(kind: Option<char>) {
    kind.Some? && var c := kind.value; c == 'i' || c == 'd' || c == 'u' || c == 'b' || c == 'o' || c == 'x' || c == 'X'
  }

  predicate IsFloatKind(kind: Option<char>) {
    kind.Some? && var c := kind.value; c == 'e' || c == 'E' || c == 'f' || c == 'F'
  }

  predicate IsBoolKind(kind: Option<char>) {
    kind.Some? && var c := kind.value; c == 'l' || c == 'L' || c == 'z' || c == 'Z'
  }

  /** `cast_string`, which keeps the values without a text. */
  function CastString(ops: Ops, v: Value): (r: Value)
    ensures r.Str? || r.Null? || r.Undef?
  {
    if v.Null? || v.Undef? then v else Str(TextOf(ops, v))
  }

  function KindCast(style: Style, kind: Option<char>, v: Value): (Status, Value) {
    if IsIntKind(kind) then ToInt(style.ops, v)
    else if IsFloatKind(kind) then style.castFloat(v)
    else if IsBoolKind(kind) then ToBool(style.ops, v)
    else (Success, CastString(style.ops, v))
  }

  function IntText(f: Fields, n: Int64): string
    requires IsIntKind(f.kind)
  {
    match f.kind.value
    case 'u' => N.UnsignedText(n, 10, f.width, f.sign)
    case 'o' => N.UnsignedText(n, 8, f.width, f.sign)
    case 'b' => N.SignedText(n, 2, false, f.width, f.sign)
    case 'x' => N.SignedText(n, 16, false, f.width, f.sign)
    case 'X' => N.SignedText(n, 16, true, f.width, f.sign)
    case _ => N.SignedText(n, 10, false, f.width, f.sign)
  }

  /** The text of a value that has been cast to the type of the specifier. */
  function CastText(style: Style, f: Fields, v: Value): string {
    Shown(v,
          if IsIntKind(f.kind) then IntText(f, IntOf(style.ops, v))
          else if IsFloatKind(f.kind) then style.floatText(f, v)
          else if IsBoolKind(f.kind) then BoolText(f.kind.value, BoolOf(style.ops, v))
          else if v.Str? then CasedText(style, f.kind, v.s) else "")
  }

  function ValueText(style: Style, f: Fields, v: Value): Result<string, Failure> {
    var (st, w) := KindCast(style, f.kind, v);
    if st != Success then Err(st) else Ok(CastText(style, f, w))
  }

  method IntToStr(ops: Ops, s: FmtSpec, v: Value)
    requires s.buf == "" && IsIntKind(s.spec.kind)
    modifies s`buf
    ensures s.buf == Shown(v, IntText(s.spec, IntOf(ops, v)))
  {
    match s.spec.kind.value {
      case 'u' => UintToRadix(ops, s, v, 10);
      case 'b' => IntToRadix(ops, s, v, 2, false);
      case 'o' => UintToRadix(ops, s, v, 8);
      case 'x' => IntToRadix(ops, s, v, 16, false);
      case 'X' => IntToRadix(ops, s, v, 16, true);
      case _ => IntToDec(ops, s, v);
    }
  }

  /** The cast and the printing, by the type of the specifier. */
  method PrintValue(style: Style, s: FmtSpec, v: Value) returns (res: Status)
    requires s.buf == ""
    modifies s`buf
    ensures match ValueText(style, s.spec, v)
            case Ok(text) => res == Success && s.buf == text
            case Err(st) => res == st
  {
    var kind := s.spec.kind;
    var (st, w) := KindCast(style, kind, v);
    if st != Success {
      return st;
    }
    if IsIntKind(kind) {
      IntToStr(style.ops, s, w);
    } else if IsFloatKind(kind) {
      var skip := CheckSpecials(s, w);
      if !skip {
        s.buf := style.floatText(s.spec, w);
      }
    } else if IsBoolKind(kind) {
      BoolToStr(style.ops, s, w);
    } else {
      TextToStr(style, s, w);
    }
    return Success;
  }

  // ------------------------------------------------------------------
  // Padding.

  function OrZero(n: Option<nat>): nat {
    if n.Some? then n.value else 0
  }

  /** The width to pad to, as `size_t`. */
  function FullWidth(f: Fields): nat {
    if OrZero(f.width) > OrZero(f.xwidth) then OrZero(f.width) else OrZero(f.xwidth)
  }

  /** The missing characters, in the arithmetic of `ssize_t`. */
  function Pad(f: Fields, length: nat): Int64 {
    Wrap(Wrap(FullWidth(f)) - Wrap(length))
  }

  function Shared(a: Align, pad: nat): (nat, nat) {
    match a
    case NoAlign => (0, 0)
    case Left => (0, pad)
    case Right => (pad, 0)
    case Middle => (pad / 2, pad - pad / 2)
    case FromLeft => (pad / 2, pad - pad / 2)
    case FromRight => (pad - pad / 2, pad / 2)
    case ToLeft => (pad / 4, pad - pad / 4)
    case ToRight => (pad - pad / 4, pad / 4)
  }

  /** How much padding goes to the left and to the right of a text. */
  function Padding(f: Fields, length: nat): (nat, nat) {
    if (f.width.None? && f.xwidth.None?) || Pad(f, length) <= 0 then (0, 0) else Shared(f.align, Pad(f, length))
  }

  function Copies(c: char, n: nat): string {
    seq(n, _ => c)
  }

  function OrSpace(c: Option<char>): char {
    if c.Some? then c.value else ' '
  }

  function PaddedText(f: Fields, text: string): string {
    var (l, r) := Padding(f, |text|);
    Copies(OrSpace(f.lpad), l) + text + Copies(OrSpace(f.rpad), r)
  }

  /** The larger one of the widths of a specifier, or zero if it has none. */
  predicate IsLargerWidth(f: Fields, w: nat) {
    && (f.width.Some? ==> f.width.value <= w) && (f.xwidth.Some? ==> f.xwidth.value <= w)
    && (w == 0 || f.width == Some(w) || f.xwidth == Some(w))
  }

  lemma WidthIsLarger(f: Fields, w: nat)
    ensures IsLargerWidth(f, w) <==> w == FullWidth(f)
  {
  }

  /** An aligned text with a width is padded to exactly that width or not at all; it is left
      too short only if 2^63 characters or more are missing. */
  lemma PaddingConserves(f: Fields, w: nat, length: nat)
    requires IsLargerWidth(f, w) && w < TWO_64 && length < TWO_63
    ensures var (l, r) := Padding(f, length);
      if f.align == NoAlign || (f.width.None? && f.xwidth.None?) then l == 0 && r == 0
      else
        && (l + length + r == (if w > length then w else length) <==> w - length < TWO_63)
        && (l + r > 0 ==> l + length + r == w)
  {
    WidthIsLarger(f, w);
    PadWraps(w, length);
    if Pad(f, length) > 0 && f.align != NoAlign {
      AllShared(f.align, Pad(f, length));
    }
  }

  lemma PadWraps(width: nat, length: nat)
    requires width < TWO_64 && length < TWO_63
    ensures var pad: int := Wrap(Wrap(width) - Wrap(length));
      if width - length < TWO_63 then pad == width - length else pad < 0
  {
  }

  lemma AllShared(a: Align, pad: nat)
    requires a != NoAlign
    ensures Shared(a, pad).0 + Shared(a, pad).1 == pad
  {
  }

  /** How the alignment shares the padding out. */
  lemma PaddingShared(f: Fields, length: nat)
    ensures var (l, r) := Padding(f, length);
      match f.align
      case NoAlign => l == 0 && r == 0
      case Left => l == 0
      case Right => r == 0
      case Middle => l <= r <= l + 1
      case FromLeft => l <= r <= l + 1
      case FromRight => r <= l <= r + 1
      case ToLeft => 3 * l <= r <= 3 * l + 3
      case ToRight => 3 * r <= l <= 3 * r + 3
  {
  }

  lemma PaddedTextContents(f: Fields, text: string)
    ensures var (l, r) := Padding(f, |text|); var s := PaddedText(f, text);
      && |s| == l + |text| + r && s[l..l + |text|] == text
      && (forall i :: 0 <= i < l ==> s[i] == if f.lpad.Some? then f.lpad.value else ' ')
      && (forall i :: l + |text| <= i < |s| ==> s[i] == if f.rpad.Some? then f.rpad.value else ' ')
  {
  }

  method WritePadding(out: Sink, c: char, count: nat)
    modifies out
    ensures out.text == old(out.text) + Copies(c, count)
  {
    var n: nat := count;
    assert out.text + Copies(c, 0) == out.text;
    while n > 0
      invariant n <= count && out.text == old(out.text) + Copies(c, count - n)
    {
      out.Write([c]);
      n := n - 1;
    }
  }

  method ComputePadding(s: FmtSpec) returns (lpad: nat, rpad: nat)
    ensures (lpad, rpad) == Padding(s.spec, |s.buf|)
  {
    lpad, rpad := 0, 0;
    var pad: int := Wrap(Wrap(FullWidth(s.spec)) - Wrap(|s.buf|));
    if (s.spec.width.Some? || s.spec.xwidth.Some?) && pad > 0 {
      match s.spec.align {
        case Left =>
          rpad := pad;
        case Right =>
          lpad := pad;
        case Middle | FromLeft =>
          lpad := pad / 2;
          rpad := pad - lpad;
        case FromRight =>
          rpad := pad / 2;
          lpad := pad - rpad;
        case ToLeft =>
          lpad := pad / 4;
          rpad := pad - lpad;
        case ToRight =>
          rpad := pad / 4;
          lpad := pad - rpad;
        case NoAlign =>
      }
    }
  }

  method WritePadded(out: Sink, s: FmtSpec)
    modifies out
    ensures out.text == old(out.text) + PaddedText(s.spec, s.buf)
  {
    var lpad, rpad := ComputePadding(s);
    WritePadding(out, OrSpace(s.spec.lpad), lpad);
    out.Write(s.buf);
    WritePadding(out, OrSpace(s.spec.rpad), rpad);
    ghost var was, l, r := old(out.text), Copies(OrSpace(s.spec.lpad), lpad), Copies(OrSpace(s.spec.rpad), rpad);
    assert was + l + s.buf + r == was + (l + s.buf + r);
  }

  // ------------------------------------------------------------------
  // Emitting a parameter.

  /** The value that a specifier takes from a parameter list, which may be missing. */
  function Fetched(es: Option<seq<NamedValue>>, f: Fields): Outcome {
    if es.None? then Ok(Undef)
    else if f.name.Some? then ResolveIn(es.value)(Query(f.name.value, []))
    else if f.index < |es.value| then Ok(es.value[f.index].value)
    else Err(InvalidValue)
  }

  /** The text that a specifier gives for a value. */
  function Printed(style: Style, f: Fields, v: Value): Result<string, Failure> {
    var text := ValueText(style, f, v);
    if text.Err? then text else Ok(PaddedText(f, text.value))
  }

  function Emitted(style: Style, es: Option<seq<NamedValue>>, f: Fields): Result<string, Failure> {
    var v := Fetched(es, f);
    if v.Err? then Err(v.error) else Printed(style, f, v.value)
  }

  function EntriesOf(params: Parameters?): Option<seq<NamedValue>>
    reads params, if params != null then params.vParams else []
  {
    if params == null then None else Some(params.Entries())
  }

  method Fetch(params: Parameters?, f: Fields) returns (v: Outcome)
    ensures v == Fetched(EntriesOf(params), f)
  {
    v := Ok(Undef);
    if params != null {
      if f.name.Some? {
        v := params.GetNamed(f.name.value);
      } else {
        v := params.GetAt(f.index);
      }
    }
  }

  method EmitParameter(style: Style, out: Sink, s: FmtSpec, params: Parameters?) returns (res: Status)
    modifies out, s`buf
    ensures match Emitted(style, old(EntriesOf(params)), s.spec)
            case Ok(text) => res == Success && out.text == old(out.text) + text
            case Err(st) => res == st && out.text == old(out.text)
  {
    var v := Fetch(params, s.spec);
    if v.Err? {
      return v.error;
    }
    s.buf := "";
    res := PrintValue(style, s, v.value);
    if res == Success {
      WritePadded(out, s);
    }
  }

  // ------------------------------------------------------------------
  // Reading a specifier.

  /** The offset of the next closing brace, or the end. */
  function CloseAt(t: string, i: nat): (r: nat)
    requires i <= |t|
    ensures i <= r <= |t| && (r < |t| ==> t[r] == '}')
    decreases |t| - i
  {
    if i == |t| || t[i] == '}' then i else CloseAt(t, i + 1)
  }

  /** Reads a specifier from behind its opening brace; a malformed one is written out again. */
  method ReadSpecifier(out: Sink, fmt: T.Source, s: FmtSpec) returns (res: Status)
    requires fmt.Valid() && s.buf == ""
    modifies out, fmt, s
    ensures fmt.Valid()
    ensures var t, i := fmt.text, old(fmt.pos);
      var close := CloseAt(t, i);
      if close == |t| then
        res == BadFormat && fmt.pos == close && out.text == old(out.text) + ("{" + t[i..close])
      else
        && fmt.pos == close + 1
        && match Parse(t[i..close], 0, old(s.spec))
           case None => res == BadFormat && out.text == old(out.text) + ("{" + t[i..close] + "}")
           case Some(f) => res == Success && out.text == old(out.text) && s.spec == f
  {
    ghost var t, i := fmt.text, fmt.pos;
    while true
      invariant fmt.Valid() && i <= fmt.pos <= |t|
      invariant s.buf == t[i..fmt.pos] && CloseAt(t, fmt.pos) == CloseAt(t, i)
      invariant s.spec == old(s.spec) && out.text == old(out.text)
      decreases |t| - fmt.pos
    {
      var c := fmt.Read();
      if c.AtEnd? {
        out.Write("{");
        out.Write(s.buf);
        assert old(out.text) + "{" + s.buf == old(out.text) + ("{" + s.buf);
        return BadFormat;
      }
      if c.c == '}' {
        break;
      }
      s.buf := s.buf + [c.c];
    }
    assert s.buf == t[i..CloseAt(t, i)];
    var ok := s.ParseBuffer();
    if !ok {
      out.Write("{");
      out.Write(s.buf);
      out.Write("}");
      assert old(out.text) + "{" + s.buf + "}" == old(out.text) + ("{" + s.buf + "}");
      return BadFormat;
    }
    return Success;
  }

  // ------------------------------------------------------------------
  // The scanner.

  function Then(head: string, rest: (string, Status)): (string, Status) {
    (head + rest.0, rest.1)
  }

  predicate Anonymous(f: Fields) {
    f.name.None? && !f.indexed
  }

  /** What a specifier gives at a position of the parameter list: its text and whether it used
      the position up, or the status that ends the formatting. A malformed one gives itself. */
  type Filler = (string, nat) -> Result<(string, bool), Failure>

  function HoleText(style: Style, es: Option<seq<NamedValue>>, body: string,
                    index: nat): Result<(string, bool), Failure>
  {
    match Parse(body, 0, Initial(index))
    case None => Ok(("{" + body + "}", false))
    case Some(f) =>
      var text := Emitted(style, es, f);
      if text.Err? then Err(text.error) else Ok((text.value, Anonymous(f)))
  }

  function Fill(style: Style, es: Option<seq<NamedValue>>): Filler {
    (body: string, index: nat) => HoleText(style, es, body, index)
  }

  /** The output for the template from offset `i` on, and the final status. */
  function FormatFrom(fill: Filler, t: string, i: nat, protector: bool, index: nat): (string, Status)
    requires i <= |t|
    decreases |t| - i
  {
    if i == |t| then ("", Success)
    else
      var c := t[i];
      if c == '\\' then Then(if protector then "\\" else "", FormatFrom(fill, t, i + 1, !protector, index))
      else if c == '{' && !protector then
        var close := CloseAt(t, i + 1);
        var body := t[i + 1..close];
        if close == |t| then ("{" + body, Success)
        else
          match fill(body, index)
          case Err(st) => ("", st)
          case Ok((text, used)) => Then(text, FormatFrom(fill, t, close + 1, false, if used then index + 1 else index))
      else
        Then(OtherText(c, protector), FormatFrom(fill, t, i + 1, false, index))
  }

  lemma ThenMore(a: string, b: string, rest: (string, Status))
    ensures Then(a + b, rest) == Then(a, Then(b, rest))
  {
    assert a + b + rest.0 == a + (b + rest.0);
  }

  /** Output that has got as far as `text` and offset `i` of the template, and what is left. */
  function Whole(fill: Filler, t: string, i: nat, protector: bool, index: nat, text: string): (string, Status)
    requires i <= |t|
  {
    Then(text, FormatFrom(fill, t, i, protector, index))
  }

  /** What a specifier does from behind its opening brace: the status, the next position, the
      output and the offset behind it. */
  ghost predicate HoleFilled(fill: Filler, t: string, i: nat, index: nat, was: string,
                             res: Status, next: nat, text: string, pos: nat)
    requires i <= |t|
  {
    var close := CloseAt(t, i);
    if close == |t| then res == Success && next == index && pos == close && text == was + ("{" + t[i..close])
    else
      match fill(t[i..close], index)
      case Err(st) => res == st && text == was
      case Ok((more, used)) =>
        res == Success && next == (if used then index + 1 else index) && pos == close + 1 && text == was + more
  }

  lemma HoleDone(fill: Filler, t: string, i: nat, index: nat, was: string,
                 res: Status, next: nat, text: string, pos: nat)
    requires 0 < i <= |t| && t[i - 1] == '{' && HoleFilled(fill, t, i, index, was, res, next, text, pos)
    ensures var whole := Whole(fill, t, i - 1, false, index, was);
      if res == Success then i <= pos <= |t| && whole == Whole(fill, t, pos, false, next, text)
      else whole == (text, res)
  {
    var close := CloseAt(t, i);
    if close == |t| {
      assert was + ("{" + t[i..close]) + "" == was + ("{" + t[i..close]);
    } else {
      match fill(t[i..close], index)
      case Err(_) =>
        assert was + "" == was;
      case Ok((more, used)) =>
        ThenMore(was, more, FormatFrom(fill, t, close + 1, false, if used then index + 1 else index));
    }
  }

  lemma BackslashDone(fill: Filler, t: string, i: nat, protector: bool, index: nat, was: string)
    requires i < |t| && t[i] == '\\'
    ensures Whole(fill, t, i, protector, index, was)
         == Whole(fill, t, i + 1, !protector, index, if protector then was + "\\" else was)
  {
    var text := if protector then "\\" else "";
    ThenMore(was, text, FormatFrom(fill, t, i + 1, !protector, index));
    assert was + "" == was;
  }

  /** What the scanner writes for a character that is no backslash and opens no specifier. */
  function OtherText(c: char, protector: bool): string {
    if protector && c != '{' && c != '}' then ['\\', c] else [c]
  }

  lemma OtherDone(fill: Filler, t: string, i: nat, protector: bool, index: nat, was: string)
    requires i < |t| && t[i] != '\\' && (t[i] == '{' ==> protector)
    ensures Whole(fill, t, i, protector, index, was)
         == Whole(fill, t, i + 1, false, index, was + OtherText(t[i], protector))
  {
    ThenMore(was, OtherText(t[i], protector), FormatFrom(fill, t, i + 1, false, index));
  }

  /** The function gives what specifiers print of the parameters. */
  ghost predicate Fills(fill: Filler, style: Style, es: Option<seq<NamedValue>>) {
    forall body: string, index: nat {:trigger HoleText(style, es, body, index)} ::
      fill(body, index) == HoleText(style, es, body, index)
  }

  /** Reads and prints one specifier, from behind its opening brace. */
  method FillHole(style: Style, out: Sink, fmt: T.Source, params: Parameters?, s: FmtSpec, index: nat,
                  ghost fill: Filler)
    returns (res: Status, next: nat)
    requires fmt.Valid() && s.buf == "" && s.spec == Initial(index) && Fills(fill, style, EntriesOf(params))
    modifies out, fmt, s
    ensures fmt.Valid()
    ensures HoleFilled(fill, fmt.text, old(fmt.pos), index, old(out.text), res, next, out.text, fmt.pos)
    ensures res == Success ==> s.buf == "" && s.spec == Initial(next)
  {
    ghost var t, i, es := fmt.text, fmt.pos, EntriesOf(params);
    next := index;
    res := ReadSpecifier(out, fmt, s);
    assert CloseAt(t, i) < |t| ==>
        fill(t[i..CloseAt(t, i)], index) == HoleText(style, es, t[i..CloseAt(t, i)], index);
    if res == Success {
      res := EmitParameter(style, out, s, params);
      if res != Success {
        return;
      }
      if s.spec.name.None? && !s.spec.indexed {
        next := index + 1;
      }
    } else if res != BadFormat {
      return;
    }
    s.Init(next);
    res := Success;
  }

  /** The branch of a backslash. */
  method FormatBackslash(out: Sink, was: bool, ghost fill: Filler, ghost t: string, ghost i: nat, ghost index: nat)
    returns (protector: bool)
    requires i < |t| && t[i] == '\\'
    modifies out
    ensures Whole(fill, t, i, was, index, old(out.text)) == Whole(fill, t, i + 1, protector, index, out.text)
  {
    BackslashDone(fill, t, i, was, index, out.text);
    if was {
      out.Write("\\");
    }
    protector := !was;
  }

  /** The branch of a character that is no backslash and opens no specifier. */
  method FormatOther(out: Sink, c: char, protector: bool,
                     ghost fill: Filler, ghost t: string, ghost i: nat, ghost index: nat)
    requires i < |t| && t[i] == c && c != '\\' && (c == '{' ==> protector)
    modifies out
    ensures Whole(fill, t, i, protector, index, old(out.text)) == Whole(fill, t, i + 1, false, index, out.text)
  {
    OtherDone(fill, t, i, protector, index, out.text);
    ghost var before := out.text;
    if protector && c != '{' && c != '}' {
      out.Write("\\");
    }
    out.Write([c]);
    assert out.text == before + OtherText(c, protector);
  }

  /** The branch of an opening brace. */
  method FormatHole(style: Style, out: Sink, fmt: T.Source, params: Parameters?, s: FmtSpec, index: nat,
                    ghost fill: Filler)
    returns (res: Status, next: nat)
    requires fmt.Valid() && fmt.pos > 0 && fmt.text[fmt.pos - 1] == '{'
    requires s.buf == "" && s.spec == Initial(index) && Fills(fill, style, EntriesOf(params))
    modifies out, fmt, s
    ensures fmt.Valid() && (res == Success ==> fmt.pos >= old(fmt.pos) && s.buf == "" && s.spec == Initial(next))
    ensures Whole(fill, fmt.text, old(fmt.pos) - 1, false, index, old(out.text))
         == if res == Success then Whole(fill, fmt.text, fmt.pos, false, next, out.text) else (out.text, res)
  {
    ghost var i, was := fmt.pos, out.text;
    res, next := FillHole(style, out, fmt, params, s, index, fill);
    HoleDone(fill, fmt.text, i, index, was, res, next, out.text, fmt.pos);
  }

  /** The loop of `format`: the template is read character by character; `protector` tells that
      the last one was an unpaired backslash. */
  method FormatAll(style: Style, out: Sink, fmt: T.Source, params: Parameters?, ghost fill: Filler)
    returns (res: Status)
    requires fmt.Valid() && Fills(fill, style, EntriesOf(params))
    modifies out, fmt
    ensures (out.text, res) == Whole(fill, fmt.text, old(fmt.pos), false, 0, old(out.text))
  {
    ghost var whole := Whole(fill, fmt.text, fmt.pos, false, 0, out.text);
    var index, protector := 0, false;
    var s := new FmtSpec(index);
    while true
      invariant fmt.Valid() && Fills(fill, style, EntriesOf(params))
      invariant s.buf == "" && s.spec == Initial(index) && fresh(s)
      invariant Whole(fill, fmt.text, fmt.pos, protector, index, out.text) == whole
      decreases |fmt.text| - fmt.pos
    {
      var c := fmt.Read();
      if c.AtEnd? {
        assert out.text + "" == out.text;
        return Success;
      }
      if c.c == '\\' {
        protector := FormatBackslash(out, protector, fill, fmt.text, fmt.pos - 1, index);
      } else if c.c == '{' && !protector {
        res, index := FormatHole(style, out, fmt, params, s, index, fill);
        if res != Success {
          return;
        }
      } else {
        FormatOther(out, c.c, protector, fill, fmt.text, fmt.pos - 1, index);
        protector := false;
      }
    }
  }

  method Format(style: Style, out: Sink, fmt: T.Source, params: Parameters?) returns (res: Status)
    requires fmt.Valid()
    modifies out, fmt
    ensures (out.text, res)
         == Then(old(out.text), FormatFrom(Fill(style, old(EntriesOf(params))), fmt.text, old(fmt.pos), false, 0))
  {
    res := FormatAll(style, out, fmt, params, Fill(style, EntriesOf(params)));
  }

  /** An empty text, aligned to the width 2^63, is not padded. */
  lemma HugeWidthIgnored()
    ensures Padding(Initial(0).(align := Right, xwidth := Some(TWO_63)), 0) == (0, 0)
  {
    PadWraps(TWO_63, 0);
  }
}
