/** What each type of a specifier prints: src/main/expr/format.cpp. */
module FormatValues {
  import opened Basics
  import opened Numerals
  import opened Evaluator
  import opened Lexing
  import opened EvaluatorLaws
  import N = NumberText
  import opened Specifiers
  import opened Printing
  import opened Formatting

  // ------------------------------------------------------------------
  // Integers.

  predicate IsInteger(kind: char) {
    kind in "idubox" || kind == 'X'
  }

  /** The radix of an integer type. */
  function RadixOf(kind: char): nat {
    match kind
    case 'b' => 2
    case 'o' => 8
    case 'x' => 16
    case 'X' => 16
    case _ => 10
  }

  /** The types that print the bits of a negative number. */
  predicate IsUnsigned(kind: char) {
    kind in "uo"
  }

  /** The text of an integer type. */
  lemma IntegerText(style: Style, f: Fields, kind: char, n: Int64)
    requires f.kind == Some(kind) && IsInteger(kind)
    ensures ValueText(style, f, Int(n))
         == Ok(if IsUnsigned(kind) then N.UnsignedText(n, RadixOf(kind), f.width, f.sign)
               else N.SignedText(n, RadixOf(kind), kind == 'X', f.width, f.sign))
  {
    assert kind == 'i' || kind == 'd' || kind == 'u' || kind == 'b' || kind == 'o' || kind == 'x' || kind == 'X';
  }

  /** What an integer type prints is read back by the tokenizer as one integer, once the prefix of
      the radix stands behind the sign: as the integer that was printed, unless an unsigned or
      octal type prints a negative number other than the least one. */
  lemma PrintedIntegerReadsBack(style: Style, f: Fields, kind: char, n: Int64, kw: Keywords, rest: string)
    requires f.kind == Some(kind) && IsInteger(kind) && N.Stops(rest)
    ensures ValueText(style, f, Int(n)).Ok?
    ensures var text := N.WithPrefix(ValueText(style, f, Int(n)).value, N.PrefixText(RadixOf(kind)));
      var x := Lex(kw, TF_GET, text + rest, 0);
      && x == Lexeme(IValue, text, if IsUnsigned(kind) && n < 0 then Negated(n) else n, |text|, rest != "")
      && (x.num == n <==> (IsUnsigned(kind) ==> n >= 0 || n == -TWO_63))
  {
    IntegerText(style, f, kind, n);
    if IsUnsigned(kind) {
      N.UnsignedRoundTrip(kw, n, RadixOf(kind), f.width, f.sign, rest);
    } else {
      N.SignedRoundTrip(kw, n, RadixOf(kind), kind == 'X', f.width, f.sign, rest);
    }
  }

  /** The digits of a radix, in small letters or in capitals. */
  function DigitsOf(radix: nat, upper: bool): string
    requires radix <= 16
  {
    (if upper then "0123456789ABCDEF" else "0123456789abcdef")[..radix]
  }

  predicate AreDigitsOf(s: string, radix: nat, upper: bool)
    requires radix <= 16
  {
    forall i :: 0 <= i < |s| ==> s[i] in DigitsOf(radix, upper)
  }

  lemma DigitStands(d: nat, radix: nat, upper: bool)
    requires d < radix <= 16
    ensures DigitChar(d, upper) in DigitsOf(radix, upper)
    ensures DigitChar(d, upper) == '0' <==> d == 0
  {
    assert DigitsOf(radix, upper)[d] == DigitChar(d, upper);
  }

  lemma {:induction false} NumeralShape(n: nat, radix: nat, upper: bool)
    requires 2 <= radix <= 16
    ensures AreDigitsOf(Numeral(n, radix, upper), radix, upper)
    ensures n > 0 ==> Numeral(n, radix, upper)[0] != '0'
  {
    if n < radix {
      DigitStands(n, radix, upper);
    } else {
      Quotient(n, radix);
      NumeralShape(n / radix, radix, upper);
      DigitStands(n % radix, radix, upper);
    }
  }

  lemma PaddedShape(m: nat, radix: nat, upper: bool, width: Option<nat>)
    requires 2 <= radix <= 16
    ensures var digits := N.Padded(m, radix, upper, width);
      && AreDigitsOf(digits, radix, upper) && (width.Some? ==> |digits| >= width.value)
      && (digits[0] == '0' ==> |digits| == 1 || width == Some(|digits|))
  {
    NumeralShape(m, radix, upper);
    DigitStands(0, radix, upper);
    assert m == 0 ==> |Numeral(m, radix, upper)| == 1;
  }

  /** The digits that an integer type prints, behind the sign. */
  function PrintedDigits(kind: char, width: Option<nat>, n: Int64): string
    requires IsInteger(kind)
  {
    N.Padded(if IsUnsigned(kind) then n % TWO_64 else N.Magnitude(n), RadixOf(kind), kind == 'X', width)
  }

  lemma DigitsShape(kind: char, width: Option<nat>, n: Int64)
    requires IsInteger(kind)
    ensures var digits := PrintedDigits(kind, width, n);
      && AreDigitsOf(digits, RadixOf(kind), kind == 'X') && (width.Some? ==> |digits| >= width.value)
      && (digits[0] == '0' ==> |digits| == 1 || width == Some(|digits|))
  {
    PaddedShape(if IsUnsigned(kind) then n % TWO_64 else N.Magnitude(n), RadixOf(kind), kind == 'X', width);
  }

  /** A minus sign stands in front of negative numbers, and a plus sign in front of the others if
      the specifier asks for it. Behind it stand digits of the radix, of `X` in capitals and of all
      other types in small letters: at least as many as the width says, and with no more leading
      zeros than it takes. */
  lemma PrintedInteger(style: Style, f: Fields, kind: char, n: Int64)
    requires f.kind == Some(kind) && IsInteger(kind)
    ensures var digits := PrintedDigits(kind, f.width, n);
      && ValueText(style, f, Int(n)) == Ok((if n < 0 then "-" else if f.sign then "+" else "") + digits)
      && AreDigitsOf(digits, RadixOf(kind), kind == 'X')
      && (f.width.Some? ==> |digits| >= f.width.value)
      && (digits[0] == '0' ==> |digits| == 1 || f.width == Some(|digits|))
  {
    IntegerText(style, f, kind, n);
    DigitsShape(kind, f.width, n);
  }

  /** A value that stands for a number is printed as that number. */
  lemma NumberPrinted(style: Style, f: Fields, kind: char, v: Value)
    requires f.kind == Some(kind) && IsInteger(kind)
    ensures Count(style.ops, v).Some? ==> ValueText(style, f, v) == ValueText(style, f, Int(Count(style.ops, v).value))
    ensures (v.Float? || v.Str?) && style.ops.castInt(v).0 != Success
         ==> ValueText(style, f, v) == Err(style.ops.castInt(v).0)
  {
    IsIntegerKind(kind);
    CastsAgree(style.ops, v);
  }

  lemma IsIntegerKind(kind: char)
    requires IsInteger(kind)
    ensures IsIntKind(Some(kind))
  {
    assert kind == 'i' || kind == 'd' || kind == 'u' || kind == 'b' || kind == 'o' || kind == 'x' || kind == 'X';
  }

  // ------------------------------------------------------------------
  // Other values.

  /** Every type but those of floats prints the values without a text of their own alike. */
  lemma SpecialPrinted(style: Style, f: Fields)
    requires f.kind != Some('e') && f.kind != Some('E') && f.kind != Some('f') && f.kind != Some('F')
    ensures ValueText(style, f, Null) == Ok("<null>") && ValueText(style, f, Undef) == Ok("<undef>")
  {
  }

  /** The types of floats take the text of the cast value, unless it has none. */
  lemma FloatPrinted(style: Style, f: Fields, kind: char, v: Value)
    requires f.kind == Some(kind) && (kind == 'e' || kind == 'E' || kind == 'f' || kind == 'F')
    ensures var (st, w) := style.castFloat(v);
      ValueText(style, f, v)
      == if st != Success then Err(st)
         else if w.Null? then Ok("<null>") else if w.Undef? then Ok("<undef>") else Ok(style.floatText(f, w))
  {
  }

  // ------------------------------------------------------------------
  // The case of letters.

  /** A capital letter and its small letter, in ASCII and in the Cyrillic blocks. */
  predicate IsPair(capital: char, small: char) {
    var u, d := capital as int, small as int - capital as int;
    || ('A' <= capital <= 'Z' && d == 'a' as int - 'A' as int)
    || (0x400 <= u <= 0x40f && d == 0x50)
    || (0x410 <= u <= 0x42f && d == 0x20)
    || (u % 2 == 0 && d == 1
        && (0x460 <= u <= 0x480 || 0x48a <= u <= 0x52e || 0xa640 <= u <= 0xa66c || 0xa680 <= u <= 0xa69a))
  }

  /** The characters whose case the formatter knows. */
  predicate HasCase(c: char) {
    c as int <= 0x7f || 0x400 <= c as int <= 0x52f || 0xa640 <= c as int <= 0xa69f
  }

  lemma PairsChange(other: char -> char, capital: char, small: char)
    requires IsPair(capital, small)
    ensures ToLower(other, capital) == small == ToLower(other, small)
    ensures ToUpper(other, small) == capital == ToUpper(other, capital)
  {
  }

  lemma OnlyPairsChange(other: char -> char, c: char)
    requires HasCase(c)
    ensures ToLower(other, c) != c ==> IsPair(c, ToLower(other, c))
    ensures ToUpper(other, c) != c ==> IsPair(ToUpper(other, c), c)
  {
  }

  lemma OthersChange(other: char -> char, c: char)
    requires !HasCase(c)
    ensures ToLower(other, c) == other(c) == ToUpper(other, c)
  {
  }

  // ------------------------------------------------------------------
  // Texts and booleans.

  /** The types that print in a case of their own. */
  predicate SetsCase(kind: char) {
    kind == 't' || kind == 'T' || kind == 'y' || kind == 'Y'
  }

  /** Whether the letter at an index of the text is made a capital: all, none, or only the first
      or the others. */
  predicate IsCapital(kind: char, i: nat)
    requires SetsCase(kind)
  {
    kind == 'T' || (kind == 'y' && i > 0) || (kind == 'Y' && i == 0)
  }

  /** The letters of a text get the case that their type and their place ask for. */
  lemma CasedTextPrinted(style: Style, f: Fields, kind: char, s: string)
    requires f.kind == Some(kind) && SetsCase(kind)
    ensures ValueText(style, f, Str(s)).Ok?
    ensures var text := ValueText(style, f, Str(s)).value;
      && |text| == |s|
      && (forall i :: 0 <= i < |s| ==> text[i] == if IsCapital(kind, i) then ToUpper(style.otherUpper, s[i])
                                               else ToLower(style.otherLower, s[i]))
  {
  }

  /** All other types that are not for numbers or booleans print a text as it is, also if the
      specifier gives none. */
  lemma PlainTextPrinted(style: Style, f: Fields, s: string)
    requires f.kind == None || f.kind == Some('s') || f.kind == Some('S')
    ensures ValueText(style, f, Str(s)) == Ok(s)
  {
  }

  /** Any value with a text is printed like its text. */
  lemma TextPrinted(style: Style, f: Fields, v: Value)
    requires f.kind == None || f.kind.value in ['s', 'S', 't', 'T', 'y', 'Y']
    requires !v.Null? && !v.Undef?
    ensures ValueText(style, f, v) == ValueText(style, f, Str(TextOf(style.ops, v)))
  {
  }

  /** A boolean type prints a truth value as the text type of the same case prints its name. */
  lemma BooleanPrinted(style: Style, f: Fields, kind: char, v: Value)
    requires f.kind == Some(kind) && (kind == 'l' || kind == 'L' || kind == 'z' || kind == 'Z')
    ensures var g := f.(kind := Some(match kind case 'l' => 't' case 'L' => 'T' case 'z' => 'y' case _ => 'Y'));
      Truth(style.ops, v).Some?
      ==> ValueText(style, f, v) == ValueText(style, g, Str(if Truth(style.ops, v).value then "true" else "false"))
    ensures (v.Float? || v.Str?) && style.ops.castBool(v).0 != Success
         ==> ValueText(style, f, v) == Err(style.ops.castBool(v).0)
  {
    CastsAgree(style.ops, v);
    if Truth(style.ops, v).Some? {
      BooleansAreCasedTexts(style, kind, Truth(style.ops, v).value);
    }
  }
}
