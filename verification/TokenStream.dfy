/** What a run of `get_token` reads, as a function: src/main/expr/Tokenizer.cpp. */
module TokenStream {
  import opened Basics
  import opened Lexing

  /** How a token is written. The text of a string literal is not its spelling; there the
      spelling alone is read as the same literal, or as an unterminated one with the same text. */
  predicate WrittenAs(raw: string, x: Lexeme) {
    match x.kind
    case StringLiteral => QuotedAs(raw, x)
    case Error => QuotedAs(raw, x)
    case EOF => raw == ""
    case Identifier => raw == ":" + x.text && x.text != ""
    case Unknown => raw == x.text
    case RCBrace => raw == x.text == "}" && !x.ahead
    case _ => raw == x.text && raw != ""
  }

  /** Reading the literals from the start of `raw` takes all of it and gives the token. */
  predicate QuotedAs(raw: string, x: Lexeme) {
    CharIs(raw, 0, '\'') && StringsAt(raw, 0) == Lexeme(x.kind, x.text, 0, |raw|, false)
  }

  lemma {:induction false} SpaceWithin(t: string, o: nat, a: nat, b: nat)
    requires a <= o <= b <= |t| && SkipSpace(t, o) <= b
    ensures SkipSpace(t[a..b], o - a) == SkipSpace(t, o) - a
    decreases |t| - o
  {
    if o < b {
      assert t[a..b][o - a] == t[o];
      if IsSpace(t[o]) {
        SpaceWithin(t, o + 1, a, b);
      }
    }
  }

  /** What is read from an offset of a part of the input, as offsets of that part. */
  function Moved(r: (string, nat, bool), a: nat): (string, int, bool) {
    (r.0, r.1 - a, r.2)
  }

  /** A closed literal is read alike in any part of the input that holds it, an unclosed one in
      any part that reaches to the end. */
  lemma {:induction false} QuotedWithin(t: string, o: nat, protector: bool, a: nat, b: nat)
    requires a <= o <= b <= |t| && QuotedAt(t, o, protector).1 <= b
    requires QuotedAt(t, o, protector).2 || b == |t|
    ensures QuotedAt(t[a..b], o - a, protector) == Moved(QuotedAt(t, o, protector), a)
    decreases |t| - o
  {
    if o < b {
      assert t[a..b][o - a] == t[o];
      if protector || t[o] != '\\' {
        if protector || t[o] != '\'' {
          QuotedWithin(t, o + 1, false, a, b);
        }
      } else {
        QuotedWithin(t, o + 1, true, a, b);
      }
    }
  }

  /** The literal at offset `o` is closed; the next one can start at offset `after`. */
  predicate Closed(t: string, o: nat, text: string, next: nat, after: nat) {
    && CharIs(t, o, '\'') && next <= |t|
    && QuotedAt(t, o + 1, false) == (text, next, true) && SkipSpace(t, next) == after
  }

  lemma ClosedWithin(t: string, o: nat, text: string, next: nat, after: nat, a: nat, b: nat)
    requires Closed(t, o, text, next, after) && a <= o && after <= b <= |t|
    ensures Closed(t[a..b], o - a, text, next - a, after - a)
  {
    QuotedWithin(t, o + 1, false, a, b);
    SpaceWithin(t, next, a, b);
    assert t[a..b][o - a] == t[o];
  }

  lemma UnclosedWithin(t: string, o: nat, a: nat)
    requires a <= o < |t| && t[o] == '\'' && !QuotedAt(t, o + 1, false).2
    ensures CharIs(t[a..], o - a, '\'')
    ensures QuotedAt(t[a..], o + 1 - a, false) == (QuotedAt(t, o + 1, false).0, |t| - a, false)
    ensures QuotedAt(t, o + 1, false).1 == |t|
  {
    UnclosedReachesEnd(t, o + 1, false);
    QuotedWithin(t, o + 1, false, a, |t|);
    assert t[a..|t|] == t[a..];
    assert t[a..][o - a] == t[o];
  }

  /** The literals from offset `o` on, up to offset `b`, as they are read in the part of the input
      from `a` to `b`. */
  ghost predicate ReadWithin(t: string, o: nat, a: nat, b: nat)
    requires a <= o <= |t| && a <= b <= |t|
  {
    && o <= b
    && StringsAt(t[a..b], o - a) == Lexeme(StringsAt(t, o).kind, StringsAt(t, o).text, 0, b - a, false)
  }

  lemma StringsContinue(t: string, o: nat, text: string, next: nat, after: nat)
    requires Closed(t, o, text, next, after)
    ensures StringsAt(t, o) == StringsAt(t, after).(text := text + StringsAt(t, after).text)
  {
  }

  lemma ClosedStrings(t: string, o: nat, text: string, next: nat, after: nat, a: nat, b: nat)
    requires Closed(t, o, text, next, after) && a <= o && after <= b <= |t| && ReadWithin(t, after, a, b)
    ensures ReadWithin(t, o, a, b)
  {
    ClosedWithin(t, o, text, next, after, a, b);
    StringsContinue(t, o, text, next, after);
    StringsContinue(t[a..b], o - a, text, next - a, after - a);
  }

  lemma UnclosedStrings(t: string, o: nat, a: nat, b: nat)
    requires a <= o < |t| && t[o] == '\'' && !QuotedAt(t, o + 1, false).2 && b == StringsAt(t, o).next
    ensures ReadWithin(t, o, a, b)
  {
    UnclosedWithin(t, o, a);
    assert t[a..|t|] == t[a..];
  }

  lemma {:induction false} StringsWithin(t: string, o: nat, a: nat, b: nat)
    requires a <= o <= |t| && b == StringsAt(t, o).next
    ensures ReadWithin(t, o, a, b)
    decreases |t| - o
  {
    if CharIs(t, o, '\'') {
      var (text, next, closed) := QuotedAt(t, o + 1, false);
      if closed {
        StringsWithin(t, SkipSpace(t, next), a, b);
        ClosedStrings(t, o, text, next, SkipSpace(t, next), a, b);
      } else {
        UnclosedStrings(t, o, a, b);
      }
    }
  }

  lemma {:induction false} UnclosedReachesEnd(t: string, o: nat, protector: bool)
    requires o <= |t|
    ensures !QuotedAt(t, o, protector).2 ==> QuotedAt(t, o, protector).1 == |t|
    decreases |t| - o
  {
    if o < |t| {
      UnclosedReachesEnd(t, o + 1, false);
      UnclosedReachesEnd(t, o + 1, true);
    }
  }

  lemma StringsProgress(t: string, o: nat)
    requires CharIs(t, o, '\'')
    ensures StringsAt(t, o).next > o && StringsAt(t, o).kind in {StringLiteral, Error}
  {
    var (text, next, closed) := QuotedAt(t, o + 1, false);
    if closed {
      StringsKind(t, SkipSpace(t, next));
    }
  }

  lemma {:induction false} StringsKind(t: string, o: nat)
    requires o <= |t|
    ensures StringsAt(t, o).kind in {StringLiteral, Error}
    decreases |t| - o
  {
    if CharIs(t, o, '\'') && QuotedAt(t, o + 1, false).2 {
      StringsKind(t, SkipSpace(t, QuotedAt(t, o + 1, false).1));
    }
  }

  predicate IsNumberKind(k: Kind) {
    k == IValue || k == FValue || k == Unknown || k == Add || k == Sub
  }

  lemma NumberWritten(t: string, o: nat)
    requires o < |t|
    ensures var x := NumberAt(t, o);
      IsNumberKind(x.kind) && x.text == t[o..x.next] && (x.kind != Unknown ==> x.next > o)
  {
    var (radix, body, zero) := Prefix(t, if IsSign(t, o) then o + 1 else o);
    var whole := ScanDigits(t, body, radix, 0, zero);
    AfterWholeWritten(t, o, radix, whole);
  }

  lemma WithExponentWritten(t: string, o: nat, radix: nat, whole: Option<Int64>, at: nat)
    requires o < at <= |t|
    ensures var x := WithExponent(t, o, radix, whole, at);
      IsNumberKind(x.kind) && x.text == t[o..x.next]
  {
  }

  lemma AfterFractionWritten(t: string, o: nat, radix: nat, whole: bool, frac: Digits)
    requires o < frac.next <= |t| && (frac.misplaced ==> frac.next < |t|)
    ensures var x := AfterFraction(t, o, radix, whole, frac);
      IsNumberKind(x.kind) && x.text == t[o..x.next]
  {
    if !frac.misplaced && (whole || frac.seen) {
      WithExponentWritten(t, o, radix, None, frac.next);
    }
  }

  lemma AfterWholeWritten(t: string, o: nat, radix: nat, whole: Digits)
    requires o <= whole.next <= |t| && o < |t| && (whole.misplaced ==> whole.next < |t|)
    requires IsSign(t, o) || whole.seen ==> whole.next > o
    ensures var x := AfterWhole(t, o, radix, whole);
      IsNumberKind(x.kind) && x.text == t[o..x.next] && (x.kind != Unknown ==> x.next > o)
  {
    var x := AfterWhole(t, o, radix, whole);
    if whole.misplaced {
      assert x == Cut(t, o, Unknown, whole.next + 1);
    } else if CharIs(t, whole.next, '.') {
      var frac := ScanDigits(t, whole.next + 1, radix, 0, false);
      assert x == AfterFraction(t, o, radix, whole.seen, frac);
      AfterFractionWritten(t, o, radix, whole.seen, frac);
    } else if whole.seen {
      var value := Some(if t[o] == '-' then Negated(whole.value) else whole.value);
      assert x == WithExponent(t, o, radix, value, whole.next);
      WithExponentWritten(t, o, radix, value, whole.next);
    }
  }

  lemma TokenWritten(kw: Keywords, flags: Flags, t: string, o: nat)
    requires o < |t|
    ensures var x := TokenAt(kw, flags, t, o); WrittenAs(t[o..x.next], x)
  {
    var c := t[o];
    if SingleSymbol(c).Some? || PairSymbol(c).Some? || c == '#' || c == '@' || c == '<' {
      SymbolWritten(kw, flags, t, o);
    } else if c == ':' {
      assert o + 1 < |t| ==> t[o..SkipIdentifier(t, o + 1)] == ":" + t[o + 1..SkipIdentifier(t, o + 1)];
    } else if c == '\'' {
      StringsProgress(t, o);
      StringsWithin(t, o, o, StringsAt(t, o).next);
    } else if !(flags.xsign && (c == '+' || c == '-')) && !IsIdentifierFirst(c) {
      NumberWritten(t, o);
    }
  }

  lemma SymbolWritten(kw: Keywords, flags: Flags, t: string, o: nat)
    requires o < |t| && (SingleSymbol(t[o]).Some? || PairSymbol(t[o]).Some? || t[o] in {'#', '@', '<'})
    ensures var x := TokenAt(kw, flags, t, o); WrittenAs(t[o..x.next], x)
  {
    var x := TokenAt(kw, flags, t, o);
    assert x.text == t[o..x.next] && x.next > o;
    assert x.kind !in {StringLiteral, Error, EOF, Identifier};
  }

  /** Behind a '}' nothing is read ahead, and nothing but the brace is read. */
  lemma BraceReadsNoFurther(kw: Keywords, flags: Flags, t: string, o: nat)
    requires o <= |t| && Lex(kw, flags, t, o).kind == RCBrace
    ensures var x := Lex(kw, flags, t, o);
      !x.ahead && x.next == SkipSpace(t, o) + 1 && t[x.next - 1] == '}'
  {
    var start, x := SkipSpace(t, o), Lex(kw, flags, t, o);
    TokenWritten(kw, flags, t, start);
    assert t[start..x.next] == "}" && t[start..x.next][0] == t[start];
  }

  // ------------------------------------------------------------------
  // Runs.

  datatype Piece = Piece(space: string, raw: string, token: Lexeme)

  /** A function that gives the token read next at an offset. */
  type Reader = (Flags, string, nat) -> Lexeme

  ghost predicate Advances(read: Reader) {
    forall flags: Flags, t: string, o: nat {:trigger read(flags, t, o)} ::
      o <= |t| ==> SkipSpace(t, o) <= read(flags, t, o).next <= |t|
  }

  /** The reader is that of the tokenizer. */
  ghost predicate IsLexer(read: Reader, kw: Keywords) {
    && Advances(read)
    && forall flags: Flags, t: string, o: nat {:trigger Lex(kw, flags, t, o)} ::
      o <= |t| ==> read(flags, t, o) == Lex(kw, flags, t, o)
  }

  function Lexer(kw: Keywords): Reader {
    (flags: Flags, t: string, o: nat) => if o <= |t| then Lex(kw, flags, t, o) else Lexeme(EOF, "", 0, o, false)
  }

  lemma LexerIsLexer(kw: Keywords)
    ensures IsLexer(Lexer(kw), kw)
  {
    forall flags: Flags, t: string, o: nat | o <= |t| ensures SkipSpace(t, o) <= Lexer(kw)(flags, t, o).next <= |t| {
      FirstWellRead(kw, flags, t, o);
    }
  }

  /** The tokens read from offset `o` on, one for each of the flags, with the input that each of
      them consumes. */
  ghost function Transcript(read: Reader, t: string, o: nat, flags: seq<Flags>): seq<Piece>
    requires Advances(read) && o <= |t|
    decreases |flags|
  {
    if flags == [] then []
    else
      var start, x := SkipSpace(t, o), read(flags[0], t, o);
      [Piece(t[o..start], t[start..x.next], x)] + Transcript(read, t, x.next, flags[1..])
  }

  ghost function OffsetAfter(read: Reader, t: string, o: nat, flags: seq<Flags>): (r: nat)
    requires Advances(read) && o <= |t|
    ensures o <= r <= |t|
    decreases |flags|
  {
    if flags == [] then o else OffsetAfter(read, t, read(flags[0], t, o).next, flags[1..])
  }

  /** What the tokenizer reads in a run of calls with the given flags. */
  ghost function Tokens(kw: Keywords, t: string, o: nat, flags: seq<Flags>): seq<Piece>
    requires o <= |t|
  {
    LexerIsLexer(kw);
    Transcript(Lexer(kw), t, o, flags)
  }

  ghost function RunEnd(kw: Keywords, t: string, o: nat, flags: seq<Flags>): (r: nat)
    requires o <= |t|
    ensures o <= r <= |t|
  {
    LexerIsLexer(kw);
    OffsetAfter(Lexer(kw), t, o, flags)
  }

  function Written(ps: seq<Piece>): string {
    if ps == [] then "" else ps[0].space + ps[0].raw + Written(ps[1..])
  }

  predicate WellRead(p: Piece) {
    && (forall i :: 0 <= i < |p.space| ==> IsSpace(p.space[i]))
    && WrittenAs(p.raw, p.token)
  }

  lemma FirstWellRead(kw: Keywords, flags: Flags, t: string, o: nat)
    requires o <= |t|
    ensures var start, x := SkipSpace(t, o), Lex(kw, flags, t, o);
      o <= start <= x.next && WellRead(Piece(t[o..start], t[start..x.next], x))
  {
    var start := SkipSpace(t, o);
    if start < |t| {
      TokenWritten(kw, flags, t, start);
    }
  }

  lemma FirstPiece(kw: Keywords, read: Reader, flags: Flags, t: string, o: nat)
    requires IsLexer(read, kw) && o <= |t|
    ensures var start, x := SkipSpace(t, o), read(flags, t, o);
      WellRead(Piece(t[o..start], t[start..x.next], x))
  {
    FirstWellRead(kw, flags, t, o);
  }

  lemma ThreeSlices(t: string, a: nat, b: nat, c: nat, d: nat)
    requires a <= b <= c <= d <= |t|
    ensures t[a..b] + t[b..c] + t[c..d] == t[a..d]
  {
  }

  lemma {:induction false} TranscriptConserves(kw: Keywords, read: Reader, t: string, o: nat, flags: seq<Flags>)
    requires IsLexer(read, kw) && o <= |t|
    ensures Written(Transcript(read, t, o, flags)) == t[o..OffsetAfter(read, t, o, flags)]
    ensures forall i :: 0 <= i < |Transcript(read, t, o, flags)| ==> WellRead(Transcript(read, t, o, flags)[i])
    decreases |flags|
  {
    if flags != [] {
      var next := read(flags[0], t, o).next;
      TranscriptConserves(kw, read, t, next, flags[1..]);
      FirstPiece(kw, read, flags[0], t, o);
      ThreeSlices(t, o, SkipSpace(t, o), next, OffsetAfter(read, t, o, flags));
    }
  }

  /** The input consumed by a run, whatever the flags of its calls, is the white space skipped and
      the spelling of the tokens, nothing lost and nothing read twice; only an unknown token or
      the end may be empty. */
  lemma RunConserves(kw: Keywords, t: string, o: nat, flags: seq<Flags>)
    requires o <= |t|
    ensures Written(Tokens(kw, t, o, flags)) == t[o..RunEnd(kw, t, o, flags)]
    ensures forall i :: 0 <= i < |Tokens(kw, t, o, flags)| ==> WellRead(Tokens(kw, t, o, flags)[i])
  {
    LexerIsLexer(kw);
    TranscriptConserves(kw, Lexer(kw), t, o, flags);
  }

  function Kinds(ps: seq<Piece>): seq<Kind> {
    if ps == [] then [] else [ps[0].token.kind] + Kinds(ps[1..])
  }
}
