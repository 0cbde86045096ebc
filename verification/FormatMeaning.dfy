/** What specifiers do in a format template: src/main/expr/format.cpp. */
module FormatMeaning {
  import opened Basics
  import opened Evaluator
  import opened Lexing
  import N = NumberText
  import opened Specifiers
  import ST = SpecifierText
  import opened Printing
  import opened ParameterLists
  import opened Formatting
  import opened FormatPieces

  /** Fields that differ in the position only, which neither of them gives itself. */
  predicate SameButIndex(f: Fields, g: Fields) {
    g == f.(index := g.index) && (f.indexed ==> f.index == g.index)
  }

  predicate SameParse(p: Parsed, q: Parsed) {
    (p.Malformed? <==> q.Malformed?) && (p.Next? ==> p.i == q.i && SameButIndex(p.f, q.f))
  }

  lemma WhereIgnoresIndex(b: string, i: nat, f: Fields, g: Fields)
    requires i <= |b| && SameButIndex(f, g)
    ensures SameParse(NameAt(b, i, f), NameAt(b, i, g)) && SameParse(IndexAt(b, i, f), IndexAt(b, i, g))
  {
  }

  lemma PadIgnoresIndex(b: string, i: nat, f: Fields, g: Fields, left: bool)
    requires i <= |b| && SameButIndex(f, g)
    ensures SameParse(PadAt(b, i, f, left), PadAt(b, i, g, left))
  {
  }

  lemma AlignIgnoresIndex(c: char, b: string, i: nat, f: Fields, g: Fields)
    requires i <= |b| && SameButIndex(f, g)
    ensures SameParse(AlignAt(c, b, i, f), AlignAt(c, b, i, g))
  {
  }

  lemma KindIgnoresIndex(b: string, i: nat, f: Fields, g: Fields)
    requires i <= |b| && SameButIndex(f, g)
    ensures SameParse(KindAt(b, i, f), KindAt(b, i, g))
  {
  }

  lemma TypeIgnoresIndex(b: string, i: nat, f: Fields, g: Fields)
    requires i <= |b| && SameButIndex(f, g)
    ensures SameParse(TypeAt(b, i, f), TypeAt(b, i, g))
  {
    if !f.typed {
      var plus := CharIs(b, i, '+');
      var (n, j) := Number(b, if plus then i + 1 else i, f.width);
      var f' := f.(typed := true, sign := f.sign || plus, width := n);
      var g' := g.(typed := true, sign := g.sign || plus, width := n);
      if CharIs(b, j, '.') {
        var (m, k) := Number(b, j + 1, f.frac);
        KindIgnoresIndex(b, k, f'.(frac := m), g'.(frac := m));
      } else {
        KindIgnoresIndex(b, j, f', g');
      }
    }
  }

  lemma ModifierIgnoresIndex(b: string, i: nat, f: Fields, g: Fields)
    requires i < |b| && SameButIndex(f, g)
    ensures SameParse(ModifierAt(b, i, f), ModifierAt(b, i, g))
  {
    var p, q := ModifierAt(b, i, f), ModifierAt(b, i, g);
    if b[i] == '@' || b[i] == '[' {
      WhereIgnoresIndex(b, i + 1, f, g);
    } else if b[i] == '^' || b[i] == '$' {
      PadIgnoresIndex(b, i + 1, f, g, b[i] == '^');
    } else if b[i] == '%' {
      TypeIgnoresIndex(b, i + 1, f, g);
    } else {
      AlignIgnoresIndex(b[i], b, i + 1, f, g);
    }
  }

  /** Whether a specifier is malformed does not depend on the position at which it stands. */
  lemma {:induction false} ParseIgnoresIndex(b: string, i: nat, f: Fields, g: Fields)
    requires i <= |b| && SameButIndex(f, g)
    ensures var p, q := Parse(b, i, f), Parse(b, i, g);
      (p.None? <==> q.None?) && (p.Some? ==> SameButIndex(p.value, q.value))
    decreases |b| - i
  {
    ParseStep(b, i, f);
    ParseStep(b, i, g);
    if i < |b| {
      ModifierIgnoresIndex(b, i, f, g);
      var p, q := ModifierAt(b, i, f), ModifierAt(b, i, g);
      if p.Next? {
        ParseIgnoresIndex(b, p.i, p.f, q.f);
      }
    }
  }

  predicate Malformed(p: Piece) {
    p.Hole? && Parse(p.body, 0, Initial(0)).None?
  }

  /** No piece is a well-formed specifier. */
  predicate NoSpecifier(pieces: seq<Piece>) {
    pieces != [] ==> (pieces[0].Hole? ==> Malformed(pieces[0])) && NoSpecifier(pieces[1..])
  }

  /** The text of a template with nothing but the escapes removed. */
  function WithoutEscapes(pieces: seq<Piece>, tail: string): string {
    if pieces == [] then TailText(tail)
    else
      var first := if pieces[0].Hole? then PieceSource(pieces[0]) else LiteralText(pieces[0]);
      first + WithoutEscapes(pieces[1..], tail)
  }

  /** No backslash protects a character, and none stands at the end. */
  predicate NoEscape(pieces: seq<Piece>, tail: string)
    decreases |pieces|
  {
    if pieces == [] then tail != "\\"
    else !(pieces[0].Quoted? && Special(pieces[0].c)) && NoEscape(pieces[1..], tail)
  }

  lemma {:induction false} WithoutEscapesShorter(pieces: seq<Piece>, tail: string)
    ensures NoEscape(pieces, tail) ==> WithoutEscapes(pieces, tail) == Source(pieces, tail)
    ensures !NoEscape(pieces, tail) ==> |WithoutEscapes(pieces, tail)| < |Source(pieces, tail)|
    decreases |pieces|
  {
    if pieces != [] {
      WithoutEscapesShorter(pieces[1..], tail);
    }
  }

  lemma {:induction false} MalformedMeaning(style: Style, es: Option<seq<NamedValue>>,
                                            pieces: seq<Piece>, tail: string, index: nat)
    requires NoSpecifier(pieces)
    ensures Meaning(Fill(style, es), pieces, tail, index) == (WithoutEscapes(pieces, tail), Success)
    decreases |pieces|
  {
    if pieces != [] {
      if pieces[0].Hole? {
        ParseIgnoresIndex(pieces[0].body, 0, Initial(0), Initial(index));
        var body := pieces[0].body;
        assert "{" + body + "}" == "{" + (body + "}");
      }
      MalformedMeaning(style, es, pieces[1..], tail, index);
    }
  }

  /** Any template whose specifiers are all malformed or unterminated comes out with the escapes
      removed, whatever the parameters. It comes out as it is exactly if there is no escape: no
      backslash before a backslash or a brace, and none at the end. */
  lemma MalformedReproduced(style: Style, es: Option<seq<NamedValue>>, t: string)
    requires NoSpecifier(Pieces(t))
    ensures FormatFrom(Fill(style, es), t, 0, false, 0) == (WithoutEscapes(Pieces(t), Tail(t)), Success)
    ensures FormatFrom(Fill(style, es), t, 0, false, 0).0 == t <==> NoEscape(Pieces(t), Tail(t))
  {
    TemplateMeaning(Fill(style, es), t);
    MalformedMeaning(style, es, Pieces(t), Tail(t), 0);
    PiecesOfTemplate(t);
    WithoutEscapesShorter(Pieces(t), Tail(t));
  }

  /** A backslash at the end of a template is lost. */
  lemma TrailingBackslash(fill: Filler)
    ensures FormatFrom(fill, "a\\", 0, false, 0) == ("a", Success)
  {
    var pieces := [Plain('a')];
    assert pieces[1..] == [] && Source(pieces, "\\") == "a\\";
    SourceMeaning(fill, pieces, "\\");
    assert Meaning(fill, pieces[1..], "\\", 0) == ("", Success);
    assert "a" + "" == "a";
  }

  // ------------------------------------------------------------------
  // Positions.

  /** A well-formed specifier without a name and without an index. */
  predicate TakesPosition(p: Piece) {
    p.Hole? && Parse(p.body, 0, Initial(0)).Some? && Anonymous(Parse(p.body, 0, Initial(0)).value)
  }

  function PositionsIn(pieces: seq<Piece>): nat {
    if pieces == [] then 0 else (if TakesPosition(pieces[0]) then 1 else 0) + PositionsIn(pieces[1..])
  }

  /** Exactly the well-formed anonymous specifiers use up a position. */
  ghost predicate Counts(fill: Filler) {
    forall body, index :: fill(body, index).Ok? ==> fill(body, index).value.1 == TakesPosition(Hole(body))
  }

  lemma FillCounts(style: Style, es: Option<seq<NamedValue>>)
    ensures Counts(Fill(style, es))
  {
    forall body, index ensures HoleText(style, es, body, index).Ok?
      ==> HoleText(style, es, body, index).value.1 == TakesPosition(Hole(body))
    {
      ParseIgnoresIndex(body, 0, Initial(0), Initial(index));
    }
  }

  /** Output that goes on unless it has failed. */
  function Continued(head: (string, Status), rest: (string, Status)): (string, Status) {
    if head.1 != Success then head else Then(head.0, rest)
  }

  lemma ContinuedMore(text: string, head: (string, Status), rest: (string, Status))
    ensures Continued(Then(text, head), rest) == Then(text, Continued(head, rest))
  {
    ThenMore(text, head.0, rest);
  }

  /** The pieces behind some others start at the position that those have reached. */
  lemma {:induction false} MeaningSplits(fill: Filler, before: seq<Piece>, after: seq<Piece>, tail: string, index: nat)
    requires Counts(fill)
    ensures Meaning(fill, before + after, tail, index)
         == Continued(Meaning(fill, before, "", index), Meaning(fill, after, tail, index + PositionsIn(before)))
    decreases |before|
  {
    if before == [] {
      assert before + after == after;
      ThenNothing(Meaning(fill, after, tail, index));
    } else {
      assert (before + after)[1..] == before[1..] + after;
      var r := PieceText(fill, before[0], index);
      if r.Ok? {
        var next := if r.value.1 then index + 1 else index;
        MeaningSplits(fill, before[1..], after, tail, next);
        ContinuedMore(r.value.0, Meaning(fill, before[1..], "", next),
                      Meaning(fill, after, tail, index + PositionsIn(before)));
      }
    }
  }

  /** The output of a specifier, and what follows it. */
  function Followed(text: Result<string, Failure>, rest: (string, Status)): (string, Status) {
    match text
    case Err(st) => ("", st)
    case Ok(text) => Then(text, rest)
  }

  lemma HoleFirst(fill: Filler, body: string, after: seq<Piece>, tail: string, k: nat,
                  text: Result<string, Failure>, used: bool)
    requires fill(body, k) == if text.Err? then Err(text.error) else Ok((text.value, used))
    ensures Meaning(fill, [Hole(body)] + after, tail, k)
         == Followed(text, Meaning(fill, after, tail, if used then k + 1 else k))
  {
    assert ([Hole(body)] + after)[1..] == after;
  }

  lemma HolePlaced(fill: Filler, t: string, before: seq<Piece>, body: string, after: seq<Piece>,
                   text: Result<string, Failure>, used: bool)
    requires Counts(fill) && Pieces(t) == before + ([Hole(body)] + after)
    requires fill(body, PositionsIn(before)) == if text.Err? then Err(text.error) else Ok((text.value, used))
    ensures var k := PositionsIn(before);
      FormatFrom(fill, t, 0, false, 0)
      == Continued(Meaning(fill, before, "", 0),
                   Followed(text, Meaning(fill, after, Tail(t), if used then k + 1 else k)))
  {
    TemplateMeaning(fill, t);
    HoleFirst(fill, body, after, Tail(t), PositionsIn(before), text, used);
    MeaningSplits(fill, before, [Hole(body)] + after, Tail(t), 0);
  }

  /** The template `t` has the well-formed specifier `{body}` behind some pieces and before others. */
  predicate HasSpecifier(t: string, before: seq<Piece>, body: string, after: seq<Piece>) {
    Pieces(t) == before + ([Hole(body)] + after) && Parse(body, 0, Initial(0)).Some?
  }

  /** The fields of a specifier behind `k` others that take a position. */
  function FieldsAt(body: string, k: nat): (f: Fields)
    requires Parse(body, 0, Initial(0)).Some?
    ensures Parse(body, 0, Initial(k)) == Some(f)
    ensures SameButIndex(Parse(body, 0, Initial(0)).value, f)
  {
    ParseIgnoresIndex(body, 0, Initial(0), Initial(k));
    Parse(body, 0, Initial(k)).value
  }

  /** What a specifier prints for a value, if there is one. */
  function Filled(style: Style, f: Fields, v: Outcome): Result<string, Failure> {
    if v.Err? then Err(v.error) else Printed(style, f, v.value)
  }

  /** What a template prints whose specifier `{body}` gets the value or the failure `v`: what
      stands before it, the specifier, and the rest, which starts at position `k`. */
  function Around(style: Style, es: Option<seq<NamedValue>>, t: string, before: seq<Piece>, body: string,
                  after: seq<Piece>, v: Outcome, k: nat): (string, Status)
    requires HasSpecifier(t, before, body, after)
  {
    var fill := Fill(style, es);
    Continued(Meaning(fill, before, "", 0),
              Followed(Filled(style, FieldsAt(body, PositionsIn(before)), v), Meaning(fill, after, Tail(t), k)))
  }

  lemma HoleFills(style: Style, es: Option<seq<NamedValue>>, f: Fields, body: string, k: nat)
    requires Parse(body, 0, Initial(k)) == Some(f)
    ensures var text := Filled(style, f, Fetched(es, f));
      Fill(style, es)(body, k) == if text.Err? then Err(text.error) else Ok((text.value, Anonymous(f)))
  {
  }

  lemma FillPlaced(style: Style, es: Option<seq<NamedValue>>, t: string, before: seq<Piece>, body: string,
                   after: seq<Piece>, f: Fields)
    requires Pieces(t) == before + ([Hole(body)] + after) && Parse(body, 0, Initial(PositionsIn(before))) == Some(f)
    ensures var fill, k := Fill(style, es), PositionsIn(before);
      FormatFrom(fill, t, 0, false, 0)
      == Continued(Meaning(fill, before, "", 0),
                   Followed(Filled(style, f, Fetched(es, f)),
                            Meaning(fill, after, Tail(t), if Anonymous(f) then k + 1 else k)))
  {
    FillCounts(style, es);
    HoleFills(style, es, f, body, PositionsIn(before));
    HolePlaced(Fill(style, es), t, before, body, after, Filled(style, f, Fetched(es, f)), Anonymous(f));
  }

  lemma SpecifierMeaning(style: Style, es: Option<seq<NamedValue>>, t: string, before: seq<Piece>, body: string,
                         after: seq<Piece>)
    requires HasSpecifier(t, before, body, after)
    ensures var k := PositionsIn(before);
      var f := FieldsAt(body, k);
      FormatFrom(Fill(style, es), t, 0, false, 0)
      == Around(style, es, t, before, body, after, Fetched(es, f), if Anonymous(f) then k + 1 else k)
  {
    FillPlaced(style, es, t, before, body, after, FieldsAt(body, PositionsIn(before)));
  }

  /** The entry at an index. */
  function EntryAt(es: seq<NamedValue>, i: nat): Outcome {
    if i < |es| then Ok(es[i].value) else Err(InvalidValue)
  }

  lemma PositionKept(body: string, k: nat)
    requires Parse(body, 0, Initial(0)).Some? && Anonymous(Parse(body, 0, Initial(0)).value)
    ensures var f := FieldsAt(body, k); f.index == k && Anonymous(f)
  {
    var f := FieldsAt(body, k);
    ST.ParseGivesSpecifiers(body, 0, Initial(k), k);
  }

  /** In any template, the k-th anonymous specifier prints parameter k, whatever named, indexed
      or malformed specifiers and whatever texts stand before it. */
  lemma KthAnonymous(style: Style, es: seq<NamedValue>, t: string, before: seq<Piece>, body: string, after: seq<Piece>)
    requires HasSpecifier(t, before, body, after) && Anonymous(Parse(body, 0, Initial(0)).value)
    ensures var k := PositionsIn(before);
      FormatFrom(Fill(style, Some(es)), t, 0, false, 0)
      == Around(style, Some(es), t, before, body, after, EntryAt(es, k), k + 1)
  {
    SpecifierMeaning(style, Some(es), t, before, body, after);
    PositionKept(body, PositionsIn(before));
  }

  /** An indexed specifier prints the entry at its index, and takes no position. */
  lemma IndexedPrints(style: Style, es: seq<NamedValue>, t: string, before: seq<Piece>, body: string,
                      after: seq<Piece>)
    requires HasSpecifier(t, before, body, after)
    requires var f := Parse(body, 0, Initial(0)).value; f.name.None? && f.indexed
    ensures var f := Parse(body, 0, Initial(0)).value;
      FormatFrom(Fill(style, Some(es)), t, 0, false, 0)
      == Around(style, Some(es), t, before, body, after, EntryAt(es, f.index), PositionsIn(before))
  {
    SpecifierMeaning(style, Some(es), t, before, body, after);
  }

  /** A named specifier prints the value of the first entry with its name, and takes no position;
      the formatting fails exactly if there is none. */
  lemma NamedPrints(style: Style, es: seq<NamedValue>, t: string, before: seq<Piece>, body: string,
                    after: seq<Piece>)
    requires HasSpecifier(t, before, body, after) && Parse(body, 0, Initial(0)).value.name.Some?
    ensures var name := Parse(body, 0, Initial(0)).value.name.value;
      var out := FormatFrom(Fill(style, Some(es)), t, 0, false, 0);
      && (forall i: nat :: IsFirst(es, i, name)
           ==> out == Around(style, Some(es), t, before, body, after, Ok(es[i].value), PositionsIn(before)))
      && (NoneNamed(es, name)
          ==> out == Around(style, Some(es), t, before, body, after, Err(NotFound), PositionsIn(before)))
  {
    var name := Parse(body, 0, Initial(0)).value.name.value;
    SpecifierMeaning(style, Some(es), t, before, body, after);
    ResolvesFirst(es, Query(name, []));
  }

  /** Without a parameter list, every specifier prints the undefined value. */
  lemma NoParameters(style: Style, t: string, before: seq<Piece>, body: string, after: seq<Piece>)
    requires HasSpecifier(t, before, body, after)
    ensures var k := PositionsIn(before);
      FormatFrom(Fill(style, None), t, 0, false, 0)
      == Around(style, None, t, before, body, after, Ok(Undef),
                if Anonymous(FieldsAt(body, k)) then k + 1 else k)
  {
    SpecifierMeaning(style, None, t, before, body, after);
  }
}
