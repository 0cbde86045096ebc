/** What the tokenizer of src/main/expr/Tokenizer.cpp reads at an offset of its input. */
module Lexing {
  import opened Basics
  import opened Texts

  datatype Kind =
    | Identifier | Bareword | IValue | FValue | StringLiteral | Color
    | LBrace | RBrace | LQBrace | RQBrace | LCBrace | RCBrace | Sharp | At
    | Mul | Pow | Div | IMod | BNot | Question | And | Or | Not | NotEq | Xor
    | Less | LessEq | Cmp | Greater | GreaterEq | Eq | Semicolon | Comma | Colon
    | Add | Sub
    | Keyword(id: nat)
    | Unknown | EOF | Error

  /** The flags of `get_token` that change what it reads. */
  datatype Flags = Flags(xsign: bool, xkeywords: bool, color: bool)

  const TF_GET := Flags(false, false, false)

  /** A token: its kind, the text and the integer it carries, the offset behind it, and
      whether the character at that offset has been read ahead. */
  datatype Lexeme = Lexeme(kind: Kind, text: string, num: Int64, next: nat, ahead: bool)

  /** The table of keywords: the token of a bareword that is one. */
  type Keywords = string -> Option<nat>

  predicate IsSpace(c: char) {
    c == ' ' || c == '\t' || c == '\n' || c == '\r'
  }

  predicate AllSpace(s: string) {
    forall i :: 0 <= i < |s| ==> IsSpace(s[i])
  }

  predicate IsIdentifierFirst(c: char) {
    'a' <= c <= 'z' || 'A' <= c <= 'Z' || c == '_'
  }

  predicate IsIdentifierNext(c: char) {
    'a' <= c <= 'z' || 'A' <= c <= 'Z' || '0' <= c <= '9' || c == '_'
  }

  predicate IsHex(c: char) {
    '0' <= c <= '9' || 'a' <= c <= 'f' || 'A' <= c <= 'F'
  }

  /** `parse_digit`: the digit, -1 for the separator '_', nothing for another character. */
  function DigitOf(c: char, radix: nat): (r: Option<int>)
    ensures r.Some? ==> -1 <= r.value < 16 && (r.value < radix || radix == 0)
  {
    var d :=
      if '0' <= c <= '9' then c as int - '0' as int
      else if 'a' <= c <= 'f' then c as int - 'a' as int + 10
      else if 'A' <= c <= 'F' then c as int - 'A' as int + 10
      else if c == '_' then -1
      else radix;
    if d >= radix then None else Some(d)
  }

  predicate CharIs(t: string, o: nat, c: char) {
    o < |t| && t[o] == c
  }

  function SkipSpace(t: string, o: nat): (r: nat)
    requires o <= |t|
    ensures o <= r <= |t|
    ensures r < |t| ==> !IsSpace(t[r])
    ensures forall i :: o <= i < r ==> IsSpace(t[i])
    decreases |t| - o
  {
    if o < |t| && IsSpace(t[o]) then SkipSpace(t, o + 1) else o
  }

  function SkipIdentifier(t: string, o: nat): (r: nat)
    requires o <= |t|
    ensures o <= r <= |t|
    ensures r < |t| ==> !IsIdentifierNext(t[r])
    ensures forall i :: o <= i < r ==> IsIdentifierNext(t[i])
    decreases |t| - o
  {
    if o < |t| && IsIdentifierNext(t[o]) then SkipIdentifier(t, o + 1) else o
  }

  /** White space is skipped up to a character that is none, or the end. */
  lemma {:induction false} SpaceEnds(t: string, o: nat, s: string)
    requires Occurs(t, o, s) && AllSpace(s) && (o + |s| < |t| ==> !IsSpace(t[o + |s|]))
    ensures SkipSpace(t, o) == o + |s|
    decreases |s|
  {
    if s != "" {
      First(t, o, s);
      SpaceEnds(t, o + 1, s[1..]);
    }
  }

  /** The rest of an identifier is read up to a character that does not belong to it, or the end. */
  lemma {:induction false} IdentifierEnds(t: string, o: nat, s: string)
    requires Occurs(t, o, s) && (o + |s| < |t| ==> !IsIdentifierNext(t[o + |s|]))
    requires forall k :: 0 <= k < |s| ==> IsIdentifierNext(s[k])
    ensures SkipIdentifier(t, o) == o + |s|
    decreases |s|
  {
    if s != "" {
      First(t, o, s);
      IdentifierEnds(t, o + 1, s[1..]);
    }
  }

  function SkipHex(t: string, o: nat): (r: nat)
    requires o <= |t|
    ensures o <= r <= |t|
    decreases |t| - o
  {
    if o < |t| && IsHex(t[o]) then SkipHex(t, o + 1) else o
  }

  // ------------------------------------------------------------------
  // Numbers.

  /** Digits read up to offset `next`: their value in wrapping arithmetic, whether there was
      a digit, and whether a separator stood before the first digit. */
  datatype Digits = Digits(next: nat, value: Int64, seen: bool, misplaced: bool)

  function ScanDigits(t: string, o: nat, radix: nat, value: Int64, seen: bool): (r: Digits)
    requires o <= |t|
    ensures o <= r.next <= |t| && (r.misplaced ==> r.next < |t|)
    ensures seen ==> r.seen
    ensures r.next == o && !r.misplaced ==> r.seen == seen
    decreases |t| - o
  {
    if o == |t| then Digits(o, value, seen, false)
    else
      match DigitOf(t[o], radix)
      case None => Digits(o, value, seen, false)
      case Some(d) =>
        if d >= 0 then ScanDigits(t, o + 1, radix, Wrap(value * radix + d), true)
        else if !seen then Digits(o, value, seen, true)
        else ScanDigits(t, o + 1, radix, value, seen)
  }

  /** The radix that a prefix selects, the offset behind it, and whether it is a digit itself. */
  function Prefix(t: string, o: nat): (r: (nat, nat, bool))
    requires o <= |t|
    ensures o <= r.1 <= |t| && 2 <= r.0 <= 16 && (r.1 == o ==> !r.2)
  {
    if !CharIs(t, o, '0') then (10, o, false)
    else if CharIs(t, o + 1, 'b') || CharIs(t, o + 1, 'B') then (2, o + 2, false)
    else if CharIs(t, o + 1, 'o') || CharIs(t, o + 1, 'O') then (8, o + 2, false)
    else if CharIs(t, o + 1, 'd') || CharIs(t, o + 1, 'D') then (10, o + 2, false)
    else if CharIs(t, o + 1, 'x') || CharIs(t, o + 1, 'X') then (16, o + 2, false)
    else (10, o + 1, true)
  }

  predicate IsExponent(t: string, o: nat) {
    CharIs(t, o, 'e') || CharIs(t, o, 'E') || CharIs(t, o, 'p') || CharIs(t, o, 'P')
  }

  predicate IsSign(t: string, o: nat) {
    CharIs(t, o, '-') || CharIs(t, o, '+')
  }

  /** A token read by consuming up to `next` and looking at the character there. */
  function Taken(t: string, o: nat, kind: Kind, num: Int64, next: nat): Lexeme
    requires o <= next <= |t|
  {
    Lexeme(kind, t[o..next], num, next, next < |t|)
  }

  /** A token read by consuming up to `next` without looking further. */
  function Cut(t: string, o: nat, kind: Kind, next: nat): Lexeme
    requires o <= next <= |t|
  {
    Lexeme(kind, t[o..next], 0, next, false)
  }

  function NumberAt(t: string, o: nat): (r: Lexeme)
    requires o < |t|
    ensures o <= r.next <= |t|
  {
    var (radix, body, zero) := Prefix(t, if IsSign(t, o) then o + 1 else o);
    AfterWhole(t, o, radix, ScanDigits(t, body, radix, 0, zero))
  }

  /** The rest of a number, of the token from `o` on, behind the digits `whole`. */
  function AfterWhole(t: string, o: nat, radix: nat, whole: Digits): (r: Lexeme)
    requires o <= whole.next <= |t| && o < |t| && (whole.misplaced ==> whole.next < |t|)
    ensures whole.next <= r.next <= |t|
  {
    if whole.misplaced then Cut(t, o, Unknown, whole.next + 1)
    else if CharIs(t, whole.next, '.') then
      AfterFraction(t, o, radix, whole.seen, ScanDigits(t, whole.next + 1, radix, 0, false))
    else if whole.seen then
      WithExponent(t, o, radix, Some(if t[o] == '-' then Negated(whole.value) else whole.value), whole.next)
    else Taken(t, o, if !IsSign(t, o) then Unknown else if t[o] == '-' then Sub else Add, 0, whole.next)
  }

  function AfterFraction(t: string, o: nat, radix: nat, whole: bool, frac: Digits): (r: Lexeme)
    requires o <= frac.next <= |t| && (frac.misplaced ==> frac.next < |t|)
    ensures frac.next <= r.next <= |t|
  {
    if frac.misplaced then Cut(t, o, Unknown, frac.next + 1)
    else if !whole && !frac.seen then Taken(t, o, Unknown, 0, frac.next)
    else WithExponent(t, o, radix, None, frac.next)
  }

  /** The end of a number: an exponent, if there is one. `whole` is the value of the number if
      it has no dot. An exponent letter without a number behind it is read as well. */
  function WithExponent(t: string, o: nat, radix: nat, whole: Option<Int64>, at: nat): (r: Lexeme)
    requires o <= at <= |t|
    ensures at <= r.next <= |t|
  {
    if !IsExponent(t, at) then Plain(t, o, whole, at)
    else
      var signed := IsSign(t, at + 1);
      AfterExponent(t, o, whole, signed, ScanDigits(t, if signed then at + 2 else at + 1, radix, 0, false))
  }

  function AfterExponent(t: string, o: nat, whole: Option<Int64>, signed: bool, exp: Digits): (r: Lexeme)
    requires o <= exp.next <= |t| && (exp.misplaced ==> exp.next < |t|)
    ensures exp.next <= r.next <= |t|
  {
    if exp.misplaced then Cut(t, o, Unknown, exp.next + 1)
    else if signed && !exp.seen then Taken(t, o, Unknown, 0, exp.next)
    else Plain(t, o, if exp.seen then None else whole, exp.next)
  }

  function Plain(t: string, o: nat, whole: Option<Int64>, next: nat): Lexeme
    requires o <= next <= |t|
  {
    if whole.Some? then Taken(t, o, IValue, whole.value, next) else Taken(t, o, FValue, 0, next)
  }

  // ------------------------------------------------------------------
  // String literals.

  /** The text that a backslash and `c` stand for. */
  function Unescaped(c: char): string {
    match c
    case '\\' => "\\"
    case 'n' => "\n"
    case 't' => "\t"
    case 'r' => "\r"
    case '\'' => "'"
    case _ => ['\\', c]
  }

  /** Reads a literal from behind its opening quote: its text, the offset behind the closing
      quote, and whether there is one. */
  function QuotedAt(t: string, o: nat, protector: bool): (r: (string, nat, bool))
    requires o <= |t|
    ensures o <= r.1 <= |t| && (r.2 ==> o < r.1)
    decreases |t| - o
  {
    if o == |t| then ("", o, false)
    else if protector then
      var (rest, next, closed) := QuotedAt(t, o + 1, false);
      (Unescaped(t[o]) + rest, next, closed)
    else if t[o] == '\\' then QuotedAt(t, o + 1, true)
    else if t[o] == '\'' then ("", o + 1, true)
    else
      var (rest, next, closed) := QuotedAt(t, o + 1, false);
      ([t[o]] + rest, next, closed)
  }

  /** Adjacent literals are read as one. */
  function StringsAt(t: string, o: nat): (r: Lexeme)
    requires o <= |t|
    ensures o <= r.next <= |t|
    decreases |t| - o
  {
    if !CharIs(t, o, '\'') then Lexeme(StringLiteral, "", 0, o, o < |t|)
    else
      var (text, next, closed) := QuotedAt(t, o + 1, false);
      if !closed then Lexeme(Error, text, 0, next, false)
      else
        var rest := StringsAt(t, SkipSpace(t, next));
        rest.(text := text + rest.text)
  }

  // ------------------------------------------------------------------
  // Tokens.

  /** A symbol of one character, or of two if `second` follows. */
  function Pair(t: string, o: nat, one: Kind, second: char, two: Kind): Lexeme
    requires o < |t|
  {
    if CharIs(t, o + 1, second) then Cut(t, o, two, o + 2) else Taken(t, o, one, 0, o + 1)
  }

  function ColorAt(t: string, o: nat, kind: Kind): (r: Lexeme)
    requires o < |t|
    ensures o < r.next <= |t|
  {
    var next := SkipHex(t, o + 1);
    Taken(t, o, if next > o + 1 then Color else kind, 0, next)
  }

  function LessAt(t: string, o: nat): (r: Lexeme)
    requires o < |t|
    ensures o < r.next <= |t|
  {
    if CharIs(t, o + 1, '=') then
      if CharIs(t, o + 2, '>') then Cut(t, o, Cmp, o + 3) else Taken(t, o, LessEq, 0, o + 2)
    else if CharIs(t, o + 1, '>') then Cut(t, o, NotEq, o + 2)
    else Taken(t, o, Less, 0, o + 1)
  }

  function ColonAt(t: string, o: nat): (r: Lexeme)
    requires o < |t|
    ensures o < r.next <= |t|
  {
    if o + 1 < |t| && IsIdentifierFirst(t[o + 1]) then Taken(t, o + 1, Identifier, 0, SkipIdentifier(t, o + 2))
    else Taken(t, o, Colon, 0, o + 1)
  }

  function WordAt(kw: Keywords, flags: Flags, t: string, o: nat): (r: Lexeme)
    requires o < |t|
    ensures o < r.next <= |t|
  {
    var word := Taken(t, o, Bareword, 0, SkipIdentifier(t, o + 1));
    if flags.xkeywords || kw(word.text).None? then word else word.(kind := Keyword(kw(word.text).value))
  }

  /** The symbols of exactly one character. */
  function SingleSymbol(c: char): Option<Kind> {
    match c
    case '(' => Some(LBrace)
    case ')' => Some(RBrace)
    case '[' => Some(LQBrace)
    case ']' => Some(RQBrace)
    case '{' => Some(LCBrace)
    case '}' => Some(RCBrace)
    case '/' => Some(Div)
    case '%' => Some(IMod)
    case '~' => Some(BNot)
    case '?' => Some(Question)
    case ';' => Some(Semicolon)
    case ',' => Some(Comma)
    case _ => None
  }

  /** The symbols of one or two characters: the kind of the first alone, the second character
      and the kind of both. */
  function PairSymbol(c: char): Option<(Kind, char, Kind)> {
    match c
    case '*' => Some((Mul, '*', Pow))
    case '&' => Some((And, '&', And))
    case '|' => Some((Or, '|', Or))
    case '!' => Some((Not, '=', NotEq))
    case '^' => Some((Xor, '^', Xor))
    case '>' => Some((Greater, '=', GreaterEq))
    case '=' => Some((Eq, '=', Eq))
    case _ => None
  }

  /** The token that starts with the character at `o`, which is not a space. */
  function TokenAt(kw: Keywords, flags: Flags, t: string, o: nat): (r: Lexeme)
    requires o < |t|
    ensures o <= r.next <= |t|
  {
    var c := t[o];
    var one, two := SingleSymbol(c), PairSymbol(c);
    if one.Some? then Cut(t, o, one.value, o + 1)
    else if two.Some? then Pair(t, o, two.value.0, two.value.1, two.value.2)
    else if c == '#' || c == '@' then
      var kind := if c == '#' then Sharp else At;
      if flags.color then ColorAt(t, o, kind) else Cut(t, o, kind, o + 1)
    else if c == '<' then LessAt(t, o)
    else if c == ':' then ColonAt(t, o)
    else if c == '\'' then StringsAt(t, o)
    else if flags.xsign && c == '+' then Cut(t, o, Add, o + 1)
    else if flags.xsign && c == '-' then Cut(t, o, Sub, o + 1)
    else if IsIdentifierFirst(c) then WordAt(kw, flags, t, o)
    else NumberAt(t, o)
  }

  /** The next token of the input from offset `o` on. */
  function Lex(kw: Keywords, flags: Flags, t: string, o: nat): (r: Lexeme)
    requires o <= |t|
    ensures o <= r.next <= |t|
  {
    var start := SkipSpace(t, o);
    if start == |t| then Lexeme(EOF, "", 0, start, false) else TokenAt(kw, flags, t, start)
  }
}
