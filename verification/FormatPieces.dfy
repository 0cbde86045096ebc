/** The pieces of a format template, as the scanner of src/main/expr/format.cpp takes them. */
module FormatPieces {
  import opened Basics
  import opened Formatting
  import opened Texts

  /** A character that stands for itself, a backslash with the character behind it, or a
      specifier with the text between its braces. */
  datatype Piece = Plain(c: char) | Quoted(c: char) | Hole(body: string)

  /** The characters that a backslash protects. */
  predicate Special(c: char) {
    c == '\\' || c == '{' || c == '}'
  }

  predicate Fits(p: Piece) {
    match p
    case Plain(c) => c != '\\' && c != '{'
    case Quoted(_) => true
    case Hole(body) => NoBrace(body)
  }

  function PieceSource(p: Piece): (r: string)
    ensures r != ""
  {
    match p
    case Plain(c) => [c]
    case Quoted(c) => ['\\', c]
    case Hole(body) => "{" + (body + "}")
  }

  /** The text of a piece that is no specifier: a backslash goes if it protects something. */
  function LiteralText(p: Piece): string
    requires !p.Hole?
  {
    if p.Plain? || Special(p.c) then [p.c] else ['\\', p.c]
  }

  /** What can stand behind the last piece: nothing, a backslash, or a specifier without its end. */
  predicate IsTail(tail: string) {
    tail == "" || tail == "\\" || (tail[0] == '{' && NoBrace(tail))
  }

  /** A backslash at the end is dropped. */
  function TailText(tail: string): string {
    if tail == "\\" then "" else tail
  }

  function Source(pieces: seq<Piece>, tail: string): string {
    if pieces == [] then tail else PieceSource(pieces[0]) + Source(pieces[1..], tail)
  }

  predicate WellFormed(pieces: seq<Piece>, tail: string)
    decreases |pieces|
  {
    if pieces == [] then IsTail(tail) else Fits(pieces[0]) && WellFormed(pieces[1..], tail)
  }

  /** What one piece gives at a position of the parameter list. */
  function PieceText(fill: Filler, p: Piece, index: nat): Result<(string, bool), Failure> {
    if p.Hole? then fill(p.body, index) else Ok((LiteralText(p), false))
  }

  /** The pieces one behind another; the first failure ends the output. */
  function Meaning(fill: Filler, pieces: seq<Piece>, tail: string, index: nat): (string, Status)
    decreases |pieces|
  {
    if pieces == [] then (TailText(tail), Success)
    else
      match PieceText(fill, pieces[0], index)
      case Err(st) => ("", st)
      case Ok((text, used)) =>
        Then(text, Meaning(fill, pieces[1..], tail, if used then index + 1 else index))
  }

  // ------------------------------------------------------------------
  // Every template is made of pieces, in one way.

  lemma {:induction false} CloseFound(t: string, i: nat, body: string)
    requires Occurs(t, i, body) && NoBrace(body) && (i + |body| < |t| ==> t[i + |body|] == '}')
    ensures CloseAt(t, i) == i + |body|
    decreases |body|
  {
    if body != "" {
      First(t, i, body);
      CloseFound(t, i + 1, body[1..]);
    }
  }

  lemma {:induction false} NoBraceBefore(t: string, i: nat)
    requires i <= |t|
    ensures forall k :: i <= k < CloseAt(t, i) ==> t[k] != '}'
    decreases |t| - i
  {
    if i < |t| && t[i] != '}' {
      NoBraceBefore(t, i + 1);
    }
  }

  /** The first piece of a template; without one, the template is a tail. */
  function FirstPiece(t: string): (r: Option<Piece>)
    ensures r.Some? ==> |PieceSource(r.value)| <= |t|
  {
    if t == "" || t == "\\" then None
    else if t[0] == '\\' then Some(Quoted(t[1]))
    else if t[0] == '{' then
      var close := CloseAt(t, 1);
      if close == |t| then None else Some(Hole(t[1..close]))
    else Some(Plain(t[0]))
  }

  function Pieces(t: string): seq<Piece>
    decreases |t|
  {
    var p := FirstPiece(t);
    if p.None? then [] else [p.value] + Pieces(t[|PieceSource(p.value)|..])
  }

  function Tail(t: string): string
    decreases |t|
  {
    var p := FirstPiece(t);
    if p.None? then t else Tail(t[|PieceSource(p.value)|..])
  }

  lemma FirstPieceTaken(t: string)
    ensures var p := FirstPiece(t);
      if p.None? then IsTail(t)
      else Fits(p.value) && t == PieceSource(p.value) + t[|PieceSource(p.value)|..]
  {
    if t != "" && t[0] == '{' {
      NoBraceBefore(t, 1);
    }
  }

  /** Every template is the source of its pieces and its tail. */
  lemma {:induction false} PiecesOfTemplate(t: string)
    ensures WellFormed(Pieces(t), Tail(t)) && Source(Pieces(t), Tail(t)) == t
    decreases |t|
  {
    FirstPieceTaken(t);
    var p := FirstPiece(t);
    if p.Some? {
      PiecesOfTemplate(t[|PieceSource(p.value)|..]);
    }
  }

  lemma TailHasNoPiece(tail: string)
    requires IsTail(tail)
    ensures FirstPiece(tail).None?
  {
    if tail != "" && tail[0] == '{' {
      assert Occurs(tail, 1, tail[1..]);
      CloseFound(tail, 1, tail[1..]);
    }
  }

  lemma FirstPieceOfSource(p: Piece, rest: string)
    requires Fits(p)
    ensures FirstPiece(PieceSource(p) + rest) == Some(p)
  {
    var t := PieceSource(p) + rest;
    if p.Hole? {
      assert forall k {:trigger p.body[k]} :: 0 <= k < |p.body| ==> t[1 + k] == p.body[k];
      assert t[1 + |p.body|] == '}';
      CloseFound(t, 1, p.body);
      assert t[1..1 + |p.body|] == p.body;
    }
  }

  /** The pieces are unique. */
  lemma {:induction false} PiecesOfSource(pieces: seq<Piece>, tail: string)
    requires WellFormed(pieces, tail)
    ensures Pieces(Source(pieces, tail)) == pieces && Tail(Source(pieces, tail)) == tail
    decreases |pieces|
  {
    if pieces == [] {
      TailHasNoPiece(tail);
    } else {
      var p, rest := pieces[0], Source(pieces[1..], tail);
      FirstPieceOfSource(p, rest);
      assert (PieceSource(p) + rest)[|PieceSource(p)|..] == rest;
      PiecesOfSource(pieces[1..], tail);
    }
  }

  // ------------------------------------------------------------------
  // Scanning a piece.

  lemma ThenNothing(rest: (string, Status))
    ensures Then("", rest) == rest
  {
    assert "" + rest.0 == rest.0;
  }

  /** What a piece gives, and the scan behind it. */
  function Scanned(fill: Filler, t: string, next: nat, r: Result<(string, bool), Failure>, index: nat): (string, Status)
    requires next <= |t|
  {
    match r
    case Err(st) => ("", st)
    case Ok((text, used)) => Then(text, FormatFrom(fill, t, next, false, if used then index + 1 else index))
  }

  lemma PlainScanned(fill: Filler, t: string, i: nat, c: char, index: nat)
    requires Occurs(t, i, [c]) && Fits(Plain(c))
    ensures FormatFrom(fill, t, i, false, index) == Then([c], FormatFrom(fill, t, i + 1, false, index))
  {
    First(t, i, [c]);
  }

  lemma QuotedScanned(fill: Filler, t: string, i: nat, c: char, index: nat)
    requires Occurs(t, i, ['\\', c])
    ensures FormatFrom(fill, t, i, false, index)
         == Then(LiteralText(Quoted(c)), FormatFrom(fill, t, i + 2, false, index))
  {
    First(t, i, ['\\', c]);
    assert t[i + 1] == ['\\', c][1];
    ThenNothing(FormatFrom(fill, t, i + 1, true, index));
  }

  lemma HoleFound(t: string, i: nat, body: string)
    requires Occurs(t, i, "{" + (body + "}")) && NoBrace(body)
    ensures var close := i + 1 + |body|;
      close < |t| && t[i] == '{' && CloseAt(t, i + 1) == close && t[i + 1..close] == body
  {
    Split(t, i, "{", body + "}");
    First(t, i, "{");
    Split(t, i + 1, body, "}");
    First(t, i + 1 + |body|, "}");
    CloseFound(t, i + 1, body);
    assert t[i + 1..i + 1 + |body|] == body;
  }

  lemma HoleScanned(fill: Filler, t: string, i: nat, body: string, index: nat)
    requires Occurs(t, i, "{" + (body + "}")) && NoBrace(body)
    ensures FormatFrom(fill, t, i, false, index) == Scanned(fill, t, i + |body| + 2, fill(body, index), index)
  {
    HoleFound(t, i, body);
  }

  lemma PieceScanned(fill: Filler, t: string, i: nat, p: Piece, index: nat)
    requires Occurs(t, i, PieceSource(p)) && Fits(p)
    ensures FormatFrom(fill, t, i, false, index)
         == Scanned(fill, t, i + |PieceSource(p)|, PieceText(fill, p, index), index)
  {
    match p
    case Plain(c) => PlainScanned(fill, t, i, c, index);
    case Quoted(c) => QuotedScanned(fill, t, i, c, index);
    case Hole(body) => HoleScanned(fill, t, i, body, index);
  }

  lemma TailScanned(fill: Filler, t: string, i: nat, tail: string, index: nat)
    requires Occurs(t, i, tail) && i + |tail| == |t| && IsTail(tail)
    ensures FormatFrom(fill, t, i, false, index) == (TailText(tail), Success)
  {
    if tail != "" {
      First(t, i, tail);
      if tail == "\\" {
        ThenNothing(FormatFrom(fill, t, i + 1, true, index));
      } else {
        CloseFound(t, i + 1, tail[1..]);
        assert t[i + 1..|t|] == tail[1..];
        assert "{" + tail[1..] == tail;
      }
    }
  }

  /** The pieces and the tail stand in `t` one behind another, from offset `i` to the end. */
  ghost predicate Stand(t: string, i: nat, pieces: seq<Piece>, tail: string)
    decreases |pieces|
  {
    if pieces == [] then Occurs(t, i, tail) && i + |tail| == |t|
    else Occurs(t, i, PieceSource(pieces[0])) && Stand(t, i + |PieceSource(pieces[0])|, pieces[1..], tail)
  }

  lemma {:induction false} SourceStands(t: string, i: nat, pieces: seq<Piece>, tail: string)
    requires Occurs(t, i, Source(pieces, tail)) && i + |Source(pieces, tail)| == |t|
    ensures Stand(t, i, pieces, tail)
    decreases |pieces|
  {
    if pieces != [] {
      Split(t, i, PieceSource(pieces[0]), Source(pieces[1..], tail));
      SourceStands(t, i + |PieceSource(pieces[0])|, pieces[1..], tail);
    }
  }

  lemma {:induction false} PiecesScanned(fill: Filler, t: string, i: nat, pieces: seq<Piece>, tail: string, index: nat)
    requires Stand(t, i, pieces, tail) && WellFormed(pieces, tail)
    ensures i <= |t| && FormatFrom(fill, t, i, false, index) == Meaning(fill, pieces, tail, index)
    decreases |pieces|
  {
    if pieces == [] {
      TailScanned(fill, t, i, tail, index);
    } else {
      var p, r := pieces[0], PieceText(fill, pieces[0], index);
      PieceScanned(fill, t, i, p, index);
      if r.Ok? {
        PiecesScanned(fill, t, i + |PieceSource(p)|, pieces[1..], tail, if r.value.1 then index + 1 else index);
      }
    }
  }

  lemma SourceMeaning(fill: Filler, pieces: seq<Piece>, tail: string)
    requires WellFormed(pieces, tail)
    ensures FormatFrom(fill, Source(pieces, tail), 0, false, 0) == Meaning(fill, pieces, tail, 0)
  {
    var t := Source(pieces, tail);
    SourceStands(t, 0, pieces, tail);
    PiecesScanned(fill, t, 0, pieces, tail, 0);
  }

  /** Formatting with any template gives the meaning of its pieces. */
  lemma TemplateMeaning(fill: Filler, t: string)
    ensures FormatFrom(fill, t, 0, false, 0) == Meaning(fill, Pieces(t), Tail(t), 0)
  {
    PiecesOfTemplate(t);
    SourceMeaning(fill, Pieces(t), Tail(t));
  }

  // ------------------------------------------------------------------
  // Escaping.

  function EscapedChar(c: char): Piece {
    if Special(c) then Quoted(c) else Plain(c)
  }

  function EscapedPieces(s: string): seq<Piece> {
    if s == "" then [] else [EscapedChar(s[0])] + EscapedPieces(s[1..])
  }

  /** The text with a backslash before every special character. */
  function Escaped(s: string): string {
    Source(EscapedPieces(s), "")
  }

  lemma {:induction false} EscapedMeaning(fill: Filler, s: string, index: nat)
    ensures WellFormed(EscapedPieces(s), "")
    ensures Meaning(fill, EscapedPieces(s), "", index) == (s, Success)
    decreases |s|
  {
    if s != "" {
      EscapedMeaning(fill, s[1..], index);
      assert EscapedPieces(s)[1..] == EscapedPieces(s[1..]);
      assert [s[0]] + s[1..] == s;
    }
  }

  /** Any text, escaped, formats to itself. */
  lemma EscapeRoundTrip(fill: Filler, s: string)
    ensures FormatFrom(fill, Escaped(s), 0, false, 0) == (s, Success)
  {
    EscapedMeaning(fill, s, 0);
    SourceMeaning(fill, EscapedPieces(s), "");
  }
}
