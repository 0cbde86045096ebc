/** Integers as the formatter of src/main/expr/format.cpp prints them, read back by the tokenizer. */
module NumberText {
  import opened Basics
  import opened Numerals
  import opened Lexing

  function Zeros(n: nat): string {
    seq(n, _ => '0')
  }

  /** `int_append_extra`, in reading order: zeros up to the width, then the sign in front. */
  function WithExtra(digits: string, width: Option<nat>, plus: bool, negative: bool): string {
    (if negative then "-" else if plus then "+" else "") +
    (if width.Some? && width.value > |digits| then Zeros(width.value - |digits|) + digits else digits)
  }

  function Magnitude(n: Int64): nat {
    var m: int := n;
    if m < 0 then -m else m
  }

  /** `int_to_dec`, `int_to_bin` and `int_to_hex`. */
  function SignedText(n: Int64, radix: nat, upper: bool, width: Option<nat>, plus: bool): string
    requires 2 <= radix <= 16
  {
    WithExtra(Numeral(Magnitude(n), radix, upper), width, plus, n < 0)
  }

  /** `int_to_oct` and `uint_to_dec`: the digits are those of the unsigned 64-bit value. */
  function UnsignedText(n: Int64, radix: nat, width: Option<nat>, plus: bool): string
    requires 2 <= radix <= 16
  {
    WithExtra(Numeral(n % TWO_64, radix, false), width, plus, n < 0)
  }

  /** A number text with a radix prefix put behind its sign. */
  function WithPrefix(text: string, prefix: string): string {
    if text != "" && (text[0] == '-' || text[0] == '+') then [text[0]] + prefix + text[1..] else prefix + text
  }

  // ------------------------------------------------------------------
  // Reading digits.

  /** The characters that end a number. */
  predicate Stops(rest: string) {
    rest == "" || (!IsIdentifierNext(rest[0]) && rest[0] != '.')
  }

  predicate AllDigits(s: string, radix: nat) {
    forall i :: 0 <= i < |s| ==> DigitOf(s[i], radix).Some? && DigitOf(s[i], radix).value >= 0
  }

  /** The value of digits read behind a value `acc`, without wrapping. */
  function ValueOf(s: string, radix: nat, acc: nat): nat
    requires AllDigits(s, radix)
  {
    if s == "" then acc else ValueOf(s[1..], radix, acc * radix + DigitOf(s[0], radix).value)
  }

  lemma WrapStep(acc: int, radix: nat, d: nat)
    ensures Wrap(Wrap(acc) * radix + d) == Wrap(acc * radix + d)
  {
    var k := (Wrap(acc) - acc) / TWO_64;
    assert Wrap(acc) == acc + k * TWO_64;
    assert Wrap(acc) * radix == acc * radix + (k * radix) * TWO_64;
    SameResidue(acc * radix + d, k * radix);
  }

  lemma SameResidue(n: int, k: int)
    ensures Wrap(n + k * TWO_64) == Wrap(n)
  {
    var r := Wrap(n);
    var j := (r - n) / TWO_64;
    assert r - (n + k * TWO_64) == (j - k) * TWO_64;
    MultipleModulo(j - k);
    WrapUnique(n + k * TWO_64, r);
  }

  lemma MultipleModulo(k: int)
    ensures (k * TWO_64) % TWO_64 == 0
  {
  }

  /** The tokenizer reads a digit string up to its end and wraps its value. */
  lemma {:induction false} ScanAll(t: string, o: nat, s: string, radix: nat, acc: nat, seen: bool)
    requires 2 <= radix <= 16 && AllDigits(s, radix) && (seen || s != "")
    requires o + |s| <= |t| && t[o..o + |s|] == s && Stops(t[o + |s|..])
    ensures ScanDigits(t, o, radix, Wrap(acc), seen) == Digits(o + |s|, Wrap(ValueOf(s, radix, acc)), true, false)
    decreases |s|
  {
    if s == "" {
      if o < |t| {
        assert t[o..][0] == t[o];
      }
    } else {
      var d := DigitOf(s[0], radix).value;
      assert t[o] == t[o..o + |s|][0] == s[0];
      assert t[o + 1..o + |s|] == s[1..];
      WrapStep(acc, radix, d);
      ScanAll(t, o + 1, s[1..], radix, acc * radix + d, true);
    }
  }

  // ------------------------------------------------------------------
  // The digits that are printed.

  lemma {:induction false} ValueOfAppend(a: string, b: string, radix: nat, acc: nat)
    requires AllDigits(a, radix) && AllDigits(b, radix)
    ensures AllDigits(a + b, radix)
    ensures ValueOf(a + b, radix, acc) == ValueOf(b, radix, ValueOf(a, radix, acc))
  {
    if a == "" {
      assert a + b == b;
    } else {
      assert (a + b)[1..] == a[1..] + b;
      ValueOfAppend(a[1..], b, radix, acc * radix + DigitOf(a[0], radix).value);
    }
  }

  lemma {:induction false} ValueOfZeros(n: nat, radix: nat)
    requires 2 <= radix
    ensures AllDigits(Zeros(n), radix) && ValueOf(Zeros(n), radix, 0) == 0
  {
    if n > 0 {
      assert Zeros(n)[1..] == Zeros(n - 1);
      ValueOfZeros(n - 1, radix);
    }
  }

  lemma {:induction false} ValueOfNumeral(n: nat, radix: nat, upper: bool)
    requires 2 <= radix <= 16
    ensures AllDigits(Numeral(n, radix, upper), radix)
    ensures ValueOf(Numeral(n, radix, upper), radix, 0) == n
  {
    if n < radix {
      DigitRead(n, radix, upper);
    } else {
      ValueOfNumeral(n / radix, radix, upper);
      DigitRead(n % radix, radix, upper);
      var last := [DigitChar(n % radix, upper)];
      ValueOfAppend(Numeral(n / radix, radix, upper), last, radix, 0);
      assert last[1..] == "";
      assert ValueOf(last, radix, n / radix) == n / radix * radix + n % radix;
      QuotientAndRemainder(n, radix);
    }
  }

  lemma QuotientAndRemainder(n: nat, r: nat)
    requires r > 0
    ensures n / r * r + n % r == n
  {
  }

  lemma DigitRead(d: nat, radix: nat, upper: bool)
    requires d < radix <= 16
    ensures DigitOf(DigitChar(d, upper), radix) == Some(d)
  {
  }

  /** The digits of a printed number, with its leading zeros. */
  function Padded(m: nat, radix: nat, upper: bool, width: Option<nat>): (r: string)
    requires 2 <= radix <= 16
    ensures r != ""
  {
    var digits := Numeral(m, radix, upper);
    if width.Some? && width.value > |digits| then Zeros(width.value - |digits|) + digits else digits
  }

  lemma PaddedValue(m: nat, radix: nat, upper: bool, width: Option<nat>)
    requires 2 <= radix <= 16
    ensures AllDigits(Padded(m, radix, upper, width), radix)
    ensures ValueOf(Padded(m, radix, upper, width), radix, 0) == m
  {
    ValueOfNumeral(m, radix, upper);
    var digits := Numeral(m, radix, upper);
    if width.Some? && width.value > |digits| {
      ValueOfZeros(width.value - |digits|, radix);
      ValueOfAppend(Zeros(width.value - |digits|), digits, radix, 0);
    }
  }

  // ------------------------------------------------------------------
  // Reading a printed number.

  function SignText(negative: bool, plus: bool): string {
    if negative then "-" else if plus then "+" else ""
  }

  function PrefixText(radix: nat): string {
    if radix == 2 then "0b" else if radix == 8 then "0o" else if radix == 16 then "0x" else ""
  }

  /** The digits `s` at offset `o` of `t`, followed by a character that ends a number. */
  ghost predicate DigitsAt(t: string, o: nat, s: string, radix: nat) {
    && s != "" && 2 <= radix <= 16 && AllDigits(s, radix)
    && o + |s| <= |t| && t[o..o + |s|] == s && Stops(t[o + |s|..])
  }

  lemma PrefixedDigits(t: string, o: nat, radix: nat, s: string)
    requires radix in {2, 8, 16} && DigitsAt(t, o + 2, s, radix)
    requires t[o] == '0' && t[o + 1] == PrefixText(radix)[1]
    ensures Prefix(t, o) == (radix, o + 2, false)
    ensures ScanDigits(t, o + 2, radix, 0, false) == Digits(o + 2 + |s|, Wrap(ValueOf(s, radix, 0)), true, false)
  {
    assert Wrap(0) == 0;
    ScanAll(t, o + 2, s, radix, 0, false);
  }

  lemma PlainDigits(t: string, o: nat, s: string)
    requires DigitsAt(t, o, s, 10)
    ensures var (r, body, zero) := Prefix(t, o);
      && r == 10 && body <= |t|
      && ScanDigits(t, body, 10, 0, zero) == Digits(o + |s|, Wrap(ValueOf(s, 10, 0)), true, false)
  {
    assert Wrap(0) == 0;
    assert t[o] == t[o..o + |s|][0] == s[0];
    if s[0] == '0' {
      NotAPrefix(t, o, s);
      assert t[o + 1..o + |s|] == s[1..];
      ScanAll(t, o + 1, s[1..], 10, 0, true);
    } else {
      ScanAll(t, o, s, 10, 0, false);
    }
  }

  lemma NotAPrefix(t: string, o: nat, s: string)
    requires DigitsAt(t, o, s, 10) && s[0] == '0'
    ensures Prefix(t, o) == (10, o + 1, true)
  {
    assert t[o] == t[o..o + |s|][0] == s[0];
    if |s| > 1 {
      assert t[o + 1] == t[o..o + |s|][1] == s[1];
    } else if o + 1 < |t| {
      assert t[o + 1] == t[o + 1..][0];
    }
  }

  /** The part of a number behind its sign. */
  lemma BodyRead(t: string, o: nat, radix: nat, s: string, at: nat)
    requires radix in {2, 8, 10, 16} && at == o + |PrefixText(radix)| && DigitsAt(t, at, s, radix)
    requires radix != 10 ==> t[o] == '0' && t[o + 1] == PrefixText(radix)[1]
    ensures var (r, body, zero) := Prefix(t, o);
      && r == radix && body <= |t|
      && ScanDigits(t, body, radix, 0, zero) == Digits(at + |s|, Wrap(ValueOf(s, radix, 0)), true, false)
  {
    if radix == 10 {
      PlainDigits(t, o, s);
    } else {
      PrefixedDigits(t, o, radix, s);
    }
  }

  /** Nothing of the number follows its digits. */
  lemma NumberEnds(t: string, o: nat, radix: nat, value: Int64, at: nat)
    requires o < at <= |t| && Stops(t[at..])
    ensures AfterWhole(t, o, radix, Digits(at, value, true, false))
         == Taken(t, o, IValue, if t[o] == '-' then Negated(value) else value, at)
  {
    assert at < |t| ==> t[at] == t[at..][0];
  }

  lemma Layout(sign: string, prefix: string, s: string, rest: string)
    ensures var t := sign + prefix + s + rest; var a := |sign + prefix|;
      && t[a..a + |s|] == s && t[a + |s|..] == rest && t[0..a + |s|] == sign + prefix + s
      && (forall i :: 0 <= i < |prefix| ==> t[|sign| + i] == prefix[i])
  {
  }

  /** A signed number text is one token, with the wrapped value of its digits. */
  lemma NumberRead(kw: Keywords, negative: bool, plus: bool, radix: nat, s: string, rest: string)
    requires radix in {2, 8, 10, 16} && s != "" && AllDigits(s, radix) && Stops(rest)
    ensures
      var text := SignText(negative, plus) + PrefixText(radix) + s;
      var v := Wrap(ValueOf(s, radix, 0));
      Lex(kw, TF_GET, text + rest, 0)
      == Lexeme(IValue, text, if negative then Negated(v) else v, |text|, rest != "")
  {
    var sign, prefix := SignText(negative, plus), PrefixText(radix);
    Layout(sign, prefix, s, rest);
    SignedNumberRead(kw, sign + prefix + s + rest, sign, radix, s, |sign + prefix|);
  }

  predicate IsSignText(sign: string) {
    sign != "" ==> |sign| == 1 && (sign[0] == '-' || sign[0] == '+')
  }

  lemma SignedNumberRead(kw: Keywords, t: string, sign: string, radix: nat, s: string, at: nat)
    requires radix in {2, 8, 10, 16} && IsSignText(sign) && at == |sign| + |PrefixText(radix)|
    requires DigitsAt(t, at, s, radix)
    requires radix != 10 ==> t[|sign|] == '0' && t[|sign| + 1] == PrefixText(radix)[1]
    requires sign != "" ==> t[0] == sign[0]
    ensures var v := Wrap(ValueOf(s, radix, 0));
      Lex(kw, TF_GET, t, 0) == Taken(t, 0, IValue, if sign != "" && sign[0] == '-' then Negated(v) else v, at + |s|)
  {
    assert t[at..at + |s|][0] == t[at];
    BodyRead(t, |sign|, radix, s, at);
    NumberEnds(t, 0, radix, Wrap(ValueOf(s, radix, 0)), at + |s|);
    StartsNumber(t, sign, radix, s[0], at);
    NumberToken(kw, t);
  }

  lemma StartsNumber(t: string, sign: string, radix: nat, d: char, at: nat)
    requires at == |sign| + |PrefixText(radix)| < |t| && t[at] == d && IsSignText(sign)
    requires sign != "" ==> t[0] == sign[0]
    requires radix in {2, 8, 16} || (radix == 10 && IsDigit(d))
    requires radix != 10 ==> t[|sign|] == '0'
    ensures t[0] == '-' || t[0] == '+' || IsDigit(t[0])
    ensures IsSign(t, 0) <==> sign != ""
  {
  }

  lemma NumberToken(kw: Keywords, t: string)
    requires t != "" && (t[0] == '-' || t[0] == '+' || IsDigit(t[0]))
    ensures Lex(kw, TF_GET, t, 0) == NumberAt(t, 0)
  {
    assert SkipSpace(t, 0) == 0;
    NumberStart(t[0]);
    assert TokenAt(kw, TF_GET, t, 0) == NumberAt(t, 0);
  }

  lemma NumberStart(c: char)
    requires c == '-' || c == '+' || IsDigit(c)
    ensures SingleSymbol(c).None? && PairSymbol(c).None? && !IsIdentifierFirst(c) && !IsSpace(c)
  {
  }

  // ------------------------------------------------------------------
  // The round trips.

  /** The value read back from a printed magnitude. */
  lemma WrappedMagnitude(n: Int64)
    ensures var v := Wrap(Magnitude(n)); (if n < 0 then Negated(v) else v) == n
  {
  }

  /** Decimal, binary and hexadecimal texts are read back as the number they were printed from,
      for every 64-bit number, width and sign flag. */
  lemma SignedRoundTrip(kw: Keywords, n: Int64, radix: nat, upper: bool, width: Option<nat>, plus: bool, rest: string)
    requires radix in {2, 10, 16} && Stops(rest)
    ensures var text := WithPrefix(SignedText(n, radix, upper, width, plus), PrefixText(radix));
      Lex(kw, TF_GET, text + rest, 0) == Lexeme(IValue, text, n, |text|, rest != "")
  {
    var s := Padded(Magnitude(n), radix, upper, width);
    PaddedValue(Magnitude(n), radix, upper, width);
    PrefixBehindSign(n < 0, plus, radix, s);
    NumberRead(kw, n < 0, plus, radix, s, rest);
    WrappedMagnitude(n);
  }

  lemma PrefixBehindSign(negative: bool, plus: bool, radix: nat, s: string)
    requires s != "" && 2 <= radix <= 16 && AllDigits(s, radix)
    ensures WithPrefix(SignText(negative, plus) + s, PrefixText(radix))
         == SignText(negative, plus) + PrefixText(radix) + s
  {
    var text := SignText(negative, plus) + s;
    if negative || plus {
      assert text[1..] == s && [text[0]] == SignText(negative, plus);
    } else {
      assert text == s;
      assert text[0] != '-' && text[0] != '+';
      assert "" + PrefixText(radix) == PrefixText(radix);
    }
  }

  /** Octal and unsigned texts print the bits of a negative number with a minus sign in front;
      they come back exactly for the numbers that are not negative and for the least one. */
  lemma UnsignedRoundTrip(kw: Keywords, n: Int64, radix: nat, width: Option<nat>, plus: bool, rest: string)
    requires radix in {8, 10} && Stops(rest)
    ensures var text := WithPrefix(UnsignedText(n, radix, width, plus), PrefixText(radix));
      var x := Lex(kw, TF_GET, text + rest, 0);
      && x == Lexeme(IValue, text, if n < 0 then Negated(n) else n, |text|, rest != "")
      && (x.num == n <==> n >= 0 || n == -TWO_63)
  {
    var m := n % TWO_64;
    var s := Padded(m, radix, false, width);
    PaddedValue(m, radix, false, width);
    PrefixBehindSign(n < 0, plus, radix, s);
    NumberRead(kw, n < 0, plus, radix, s, rest);
    UnsignedValue(n);
  }

  lemma UnsignedValue(n: Int64)
    ensures Wrap(n % TWO_64) == n
    ensures n < 0 ==> (Negated(n) == n <==> n == -TWO_63)
  {
    assert n % TWO_64 == if n < 0 then n + TWO_64 else n;
  }

  /** The octal text of -1 is read back as 1. */
  lemma MinusOneInOctal(kw: Keywords)
    ensures Lex(kw, TF_GET, WithPrefix(UnsignedText(-1, 8, None, false), PrefixText(8)), 0).num == 1
  {
    UnsignedRoundTrip(kw, -1, 8, None, false, "");
    var text := WithPrefix(UnsignedText(-1, 8, None, false), PrefixText(8));
    assert text + "" == text;
  }
}
