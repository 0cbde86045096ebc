/** Specifiers between braces: `read_specifier` of src/main/expr/format.cpp, which fills its buffer
    up to the first closing brace, also if that brace was meant as padding. */
module SpecifierReading {
  import opened Basics
  import opened Lexing
  import opened ParameterLists
  import opened Printing
  import opened Specifiers
  import opened SpecifierBraces
  import opened SpecifierText
  import opened Formatting
  import FormatPieces
  import opened Texts

  lemma WholeBuffer(t: string, i: nat, body: string)
    requires Occurs(t, i, body + "}") && NoBrace(body)
    ensures CloseAt(t, i) == i + |body| < |t| && t[i..i + |body|] == body
  {
    Split(t, i, body, "}");
    First(t, i + |body|, "}");
    FormatPieces.CloseFound(t, i, body);
    assert t[i..i + |body|] == body;
  }

  lemma BufferWithoutBrace(t: string, i: nat)
    requires i <= |t|
    ensures NoBrace(t[i..CloseAt(t, i)])
  {
    FormatPieces.NoBraceBefore(t, i);
  }

  lemma OthersRead(f: Fields, index: nat, parts: seq<Part>, t: string, i: nat)
    requires IsSpecifier(f, index) && multiset(parts) == multiset(PartsOf(f)) && NoBracePad(f)
    requires Occurs(t, i, Text(parts) + "}")
    ensures i <= |t| && Parse(t[i..CloseAt(t, i)], 0, Initial(index)) == if EndsTypeless(parts) then None else Some(f)
  {
    BufferRoundTrip(f, index, parts);
    WrittenWithoutBrace(f, index, parts);
    WholeBuffer(t, i, Text(parts));
  }

  lemma BracePadNotRead(t: string, i: nat, index: nat, f: Fields)
    requires i <= |t| && !NoBracePad(f)
    ensures Parse(t[i..CloseAt(t, i)], 0, Initial(index)) != Some(f)
  {
    BufferWithoutBrace(t, i);
    ParsePads(t[i..CloseAt(t, i)], 0, Initial(index));
  }

  /** The modifiers of a specifier, in any order and wherever they stand in a template before a
      closing brace, are read back as exactly that specifier if and only if neither padding is a
      closing brace and no type without a kind comes last. */
  lemma SpecifierRoundTrip(f: Fields, index: nat, parts: seq<Part>, t: string, i: nat)
    requires IsSpecifier(f, index) && multiset(parts) == multiset(PartsOf(f))
    requires Occurs(t, i, Text(parts) + "}")
    ensures Parse(t[i..CloseAt(t, i)], 0, Initial(index)) == Some(f) <==> NoBracePad(f) && !EndsTypeless(parts)
  {
    if NoBracePad(f) {
      OthersRead(f, index, parts, t, i);
    } else {
      BracePadNotRead(t, i, index, f);
    }
  }

  /** The output of a specifier and what follows it. */
  function Filled(text: Result<string, Failure>, rest: (string, Status)): (string, Status) {
    if text.Err? then ("", text.error) else Then(text.value, rest)
  }

  lemma ParsedFills(style: Style, es: Option<seq<NamedValue>>, f: Fields, body: string, index: nat)
    requires Parse(body, 0, Initial(index)) == Some(f)
    ensures var text := Emitted(style, es, f);
      Fill(style, es)(body, index) == if text.Err? then Err(text.error) else Ok((text.value, Anonymous(f)))
  {
  }

  /** So a specifier is a piece of a template that prints its parameter, alike in every order of
      its modifiers, and that uses up a position if it is anonymous. */
  lemma SpecifierPrints(style: Style, es: Option<seq<NamedValue>>, f: Fields, index: nat, parts: seq<Part>,
                        after: seq<FormatPieces.Piece>, tail: string)
    requires IsSpecifier(f, index) && multiset(parts) == multiset(PartsOf(f))
    requires NoBracePad(f) && !EndsTypeless(parts)
    ensures var p, fill := FormatPieces.Hole(Text(parts)), Fill(style, es);
      && FormatPieces.Fits(p)
      && FormatPieces.Meaning(fill, [p] + after, tail, index)
      == Filled(Emitted(style, es, f),
                FormatPieces.Meaning(fill, after, tail, if Anonymous(f) then index + 1 else index))
  {
    WrittenWithoutBrace(f, index, parts);
    BufferRoundTrip(f, index, parts);
    ParsedFills(style, es, f, Text(parts), index);
    assert ([FormatPieces.Hole(Text(parts))] + after)[1..] == after;
  }

  /** "^}>:5" pads with braces on the left. In a template, the brace ends the specifier, which is
      malformed, and the rest is text. */
  lemma BraceCannotPad(index: nat)
    ensures var f := Initial(index).(lpad := Some('}'), align := Right, xwidth := Some(5));
      && IsSpecifier(f, index) && Parse("^}>:5", 0, Initial(index)) == Some(f)
      && CloseAt("{^}>:5}", 1) == 2 && Parse("^", 0, Initial(index)).None?
  {
    var f := Initial(index).(lpad := Some('}'));
    var g := f.(align := Right);
    ParseStep("^}>:5", 0, Initial(index));
    ParseStep("^}>:5", 2, f);
    assert Number("^}>:5", 5, Some(5)) == (Some(5), 5);
    ParseStep("^}>:5", 3, g);
    ParseStep("^}>:5", 5, g.(xwidth := Some(5)));
    ParseStep("^", 0, Initial(index));
  }
}
