/** Printing values into the buffer of a specifier: `int_to_dec`, `uint_to_dec`, `int_to_bin`,
    `int_to_oct`, `int_to_hex`, `text_to_str` and `bool_to_str` of src/main/expr/format.cpp. */
module Printing {
  import opened Basics
  import opened Numerals
  import opened Evaluator
  import N = NumberText
  import opened Specifiers

  /** What is not modelled: casts to floats and their printing, and the case of letters that are
      neither ASCII nor Cyrillic. */
  datatype Style = Style(
    ops: Ops,
    castFloat: Value -> (Status, Value),
    floatText: (Fields, Value) -> string,
    otherLower: char -> char,
    otherUpper: char -> char)

  function Reversed(s: string): (r: string)
    ensures |r| == |s|
  {
    if s == "" then "" else Reversed(s[1..]) + [s[0]]
  }

  lemma {:induction false} ReversedAppend(a: string, b: string)
    ensures Reversed(a + b) == Reversed(b) + Reversed(a)
  {
    if a == "" {
      assert a + b == b;
    } else {
      assert (a + b)[1..] == a[1..] + b;
      ReversedAppend(a[1..], b);
      assert Reversed(b) + Reversed(a[1..]) + [a[0]] == Reversed(b) + (Reversed(a[1..]) + [a[0]]);
    }
  }

  lemma {:induction false} ReversedZeros(n: nat)
    ensures Reversed(N.Zeros(n)) == N.Zeros(n)
  {
    if n > 0 {
      assert N.Zeros(n)[1..] == N.Zeros(n - 1);
      ReversedZeros(n - 1);
    }
  }

  // ------------------------------------------------------------------
  // Digits, least significant first.

  function Backwards(n: nat, radix: nat, upper: bool): (r: string)
    requires 2 <= radix <= 16
  {
    if n < radix then [DigitChar(n, upper)] else [DigitChar(n % radix, upper)] + Backwards(n / radix, radix, upper)
  }

  lemma {:induction false} BackwardsReversed(n: nat, radix: nat, upper: bool)
    requires 2 <= radix <= 16
    ensures Reversed(Backwards(n, radix, upper)) == Numeral(n, radix, upper)
  {
    if n < radix {
      assert [DigitChar(n, upper)][1..] == "";
    } else {
      BackwardsReversed(n / radix, radix, upper);
      var b := Backwards(n, radix, upper);
      assert b[1..] == Backwards(n / radix, radix, upper);
    }
  }

  lemma ShortReversed(s: string)
    requires |s| <= 1
    ensures Reversed(s) == s
  {
  }

  /** Digits, zeros and sign, all from the right, give a number from the left. */
  lemma ExtraReversed(n: nat, radix: nat, upper: bool, zeros: nat, sign: string)
    requires 2 <= radix <= 16 && |sign| <= 1
    ensures Reversed(Backwards(n, radix, upper) + N.Zeros(zeros) + sign)
         == sign + (N.Zeros(zeros) + Numeral(n, radix, upper))
  {
    BackwardsReversed(n, radix, upper);
    ReversedZeros(zeros);
    ShortReversed(sign);
    ReversedAppend(Backwards(n, radix, upper), N.Zeros(zeros));
    ReversedAppend(Backwards(n, radix, upper) + N.Zeros(zeros), sign);
  }

  function Missing(width: Option<nat>, length: nat): nat {
    if width.Some? && width.value > length then width.value - length else 0
  }

  /** The digits `b`, with zeros and sign behind them, from right to left. */
  function WithExtraBehind(b: string, width: Option<nat>, plus: bool, negative: bool): string {
    b + N.Zeros(Missing(width, |b|)) + N.SignText(negative, plus)
  }

  lemma ExtraInFront(digits: string, width: Option<nat>, plus: bool, negative: bool)
    ensures N.WithExtra(digits, width, plus, negative)
         == N.SignText(negative, plus) + (N.Zeros(Missing(width, |digits|)) + digits)
  {
    assert N.Zeros(0) + digits == digits;
  }

  lemma NumberFromRight(n: nat, radix: nat, upper: bool, width: Option<nat>, plus: bool, negative: bool)
    requires 2 <= radix <= 16
    ensures Reversed(WithExtraBehind(Backwards(n, radix, upper), width, plus, negative))
         == N.WithExtra(Numeral(n, radix, upper), width, plus, negative)
  {
    var sign, digits := N.SignText(negative, plus), Numeral(n, radix, upper);
    BackwardsReversed(n, radix, upper);
    ExtraReversed(n, radix, upper, Missing(width, |digits|), sign);
    ExtraInFront(digits, width, plus, negative);
  }

  // ------------------------------------------------------------------
  // The values without a text of their own.

  function Shown(v: Value, text: string): string {
    if v.Null? then "<null>" else if v.Undef? then "<undef>" else text
  }

  method CheckSpecials(s: FmtSpec, v: Value) returns (skip: bool)
    modifies s`buf
    ensures skip <==> v.Null? || v.Undef?
    ensures s.buf == if skip then Shown(v, "") else old(s.buf)
  {
    if v.Null? {
      s.buf := "<null>";
      return true;
    } else if v.Undef? {
      s.buf := "<undef>";
      return true;
    }
    return false;
  }

  // ------------------------------------------------------------------
  // Integers.

  method IntAppendExtra(s: FmtSpec, n: Int64)
    modifies s`buf
    ensures s.buf == WithExtraBehind(old(s.buf), s.spec.width, s.spec.sign, n < 0)
  {
    ghost var was := s.buf;
    assert was + N.Zeros(0) == was;
    if s.spec.width.Some? {
      while |s.buf| < s.spec.width.value
        invariant |was| <= |s.buf| <= |was| + Missing(s.spec.width, |was|)
        invariant s.buf == was + N.Zeros(|s.buf| - |was|)
      {
        s.buf := s.buf + ['0'];
      }
    }
    if n < 0 {
      s.buf := s.buf + ['-'];
    } else if s.spec.sign {
      s.buf := s.buf + ['+'];
    }
  }

  /** `lsp_abs` in wrapping arithmetic: the least number stays negative. */
  function Abs(n: Int64): Int64 {
    if n < 0 then Negated(n) else n
  }

  function TruncatedRemainder(x: int, d: int): int
    requires d > 0
  {
    if x < 0 then -(-x % d) else x % d
  }

  function TruncatedQuotient(x: int, d: int): int
    requires d > 0
  {
    if x < 0 then -(-x / d) else x / d
  }

  function Distance(x: int): nat {
    if x < 0 then -x else x
  }

  /** One step of the loops below. */
  lemma OneMoreDigit(b: string, x: nat, radix: nat, upper: bool)
    requires 2 <= radix <= 16
    ensures x / radix == 0 <==> x < radix
    ensures 0 <= x / radix <= x && (x > 0 ==> x / radix < x) && 0 <= x % radix < radix
    ensures var more := b + [DigitChar(x % radix, upper)];
      b + Backwards(x, radix, upper) == if x < radix then more else more + Backwards(x / radix, radix, upper)
  {
    Quotient(x, radix);
    if x >= radix {
      MoreBehind(b, DigitChar(x % radix, upper), Backwards(x / radix, radix, upper));
    }
  }

  lemma MoreBehind(b: string, c: char, rest: string)
    ensures b + ([c] + rest) == (b + [c]) + rest
  {
  }

  /** The loop of `int_to_dec`, which also prints a number that stayed negative. */
  method AppendSignedDigits(s: FmtSpec, n: int)
    requires s.buf == ""
    modifies s`buf
    ensures s.buf == Backwards(Distance(n), 10, false)
  {
    var x := n;
    while true
      invariant s.buf + Backwards(Distance(x), 10, false) == Backwards(Distance(n), 10, false)
      decreases Distance(x)
    {
      OneMoreDigit(s.buf, Distance(x), 10, false);
      var rem := TruncatedRemainder(x, 10);
      assert Distance(rem) == Distance(x) % 10 && Distance(TruncatedQuotient(x, 10)) == Distance(x) / 10;
      s.buf := s.buf + [if rem >= 0 then DigitChar(rem, false) else DigitChar(-rem, false)];
      x := TruncatedQuotient(x, 10);
      if x == 0 {
        break;
      }
    }
  }

  /** The loops of the other radices, over an unsigned number. */
  method AppendDigits(s: FmtSpec, n: nat, radix: nat, upper: bool)
    requires s.buf == "" && 2 <= radix <= 16
    modifies s`buf
    ensures s.buf == Backwards(n, radix, upper)
  {
    var x: nat := n;
    while true
      invariant s.buf + Backwards(x, radix, upper) == Backwards(n, radix, upper)
      decreases x
    {
      OneMoreDigit(s.buf, x, radix, upper);
      s.buf := s.buf + [DigitChar(x % radix, upper)];
      x := x / radix;
      if x == 0 {
        break;
      }
    }
  }

  lemma Magnitudes(n: Int64)
    ensures Distance(Abs(n)) == N.Magnitude(n) == Abs(n) % TWO_64
  {
  }

  method IntToDec(ops: Ops, s: FmtSpec, v: Value)
    requires s.buf == ""
    modifies s`buf
    ensures s.buf == Shown(v, N.SignedText(IntOf(ops, v), 10, false, s.spec.width, s.spec.sign))
  {
    var skip := CheckSpecials(s, v);
    if !skip {
      var n := IntOf(ops, v);
      AppendSignedDigits(s, Abs(n));
      IntAppendExtra(s, n);
      Magnitudes(n);
      NumberFromRight(N.Magnitude(n), 10, false, s.spec.width, s.spec.sign, n < 0);
      s.buf := Reversed(s.buf);
    }
  }

  /** `int_to_bin` and `int_to_hex`. */
  method IntToRadix(ops: Ops, s: FmtSpec, v: Value, radix: nat, upper: bool)
    requires s.buf == "" && radix in {2, 16}
    modifies s`buf
    ensures s.buf == Shown(v, N.SignedText(IntOf(ops, v), radix, upper, s.spec.width, s.spec.sign))
  {
    var skip := CheckSpecials(s, v);
    if !skip {
      var n := IntOf(ops, v);
      AppendDigits(s, Abs(n) % TWO_64, radix, upper);
      IntAppendExtra(s, n);
      Magnitudes(n);
      NumberFromRight(N.Magnitude(n), radix, upper, s.spec.width, s.spec.sign, n < 0);
      s.buf := Reversed(s.buf);
    }
  }

  /** `int_to_oct` and `uint_to_dec`. */
  method UintToRadix(ops: Ops, s: FmtSpec, v: Value, radix: nat)
    requires s.buf == "" && radix in {8, 10}
    modifies s`buf
    ensures s.buf == Shown(v, N.UnsignedText(IntOf(ops, v), radix, s.spec.width, s.spec.sign))
  {
    var skip := CheckSpecials(s, v);
    if !skip {
      var n := IntOf(ops, v);
      AppendDigits(s, n % TWO_64, radix, false);
      IntAppendExtra(s, n);
      NumberFromRight(n % TWO_64, radix, false, s.spec.width, s.spec.sign, n < 0);
      s.buf := Reversed(s.buf);
    }
  }

  // ------------------------------------------------------------------
  // The case of a character: `to_lower` and `to_upper` of src/main/io/charset.cpp. Outside ASCII and
  // Cyrillic, `other` stands for `towlower` and `towupper`.

  function Moved(c: char, d: int): char
    requires c as int <= 0xa69f && 0 <= c as int + d <= 0xa69f
  {
    (c as int + d) as char
  }

  function ToLower(other: char -> char, c: char): char {
    var n := c as int;
    if n <= 0x7f then if 'A' <= c <= 'Z' then Moved(c, 0x20) else c
    else if 0x400 <= n <= 0x52f then
      if n <= 0x40f then Moved(c, 0x50)
      else if n <= 0x42f then Moved(c, 0x20)
      else if n % 2 == 0 && (0x460 <= n <= 0x481 || n >= 0x48a) then Moved(c, 1)
      else c
    else if 0xa640 <= n <= 0xa69f then
      if n % 2 == 0 && (n <= 0xa66d || 0xa680 <= n <= 0xa69b) then Moved(c, 1) else c
    else other(c)
  }

  function ToUpper(other: char -> char, c: char): char {
    var n := c as int;
    if n <= 0x7f then if 'a' <= c <= 'z' then Moved(c, -0x20) else c
    else if 0x400 <= n <= 0x52f then
      if 0x450 <= n <= 0x45f then Moved(c, -0x50)
      else if 0x430 <= n <= 0x44f then Moved(c, -0x20)
      else if n % 2 == 1 && (0x460 <= n <= 0x481 || n >= 0x48a) then Moved(c, -1)
      else c
    else if 0xa640 <= n <= 0xa69f then
      if n % 2 == 1 && (n <= 0xa66d || 0xa680 <= n <= 0xa69b) then Moved(c, -1) else c
    else other(c)
  }

  // ------------------------------------------------------------------
  // Texts and booleans.

  function Mapped(f: char -> char, s: string): string {
    seq(|s|, i requires 0 <= i < |s| => f(s[i]))
  }

  function Lower(style: Style): char -> char {
    (c: char) => ToLower(style.otherLower, c)
  }

  function Upper(style: Style): char -> char {
    (c: char) => ToUpper(style.otherUpper, c)
  }

  /** The first letter in one case, the others in another. */
  function Capitalized(first: char -> char, others: char -> char, s: string): string {
    if s == "" then "" else [first(s[0])] + Mapped(others, s[1..])
  }

  function CasedText(style: Style, kind: Option<char>, s: string): string {
    if kind == Some('t') then Mapped(Lower(style), s)
    else if kind == Some('T') then Mapped(Upper(style), s)
    else if kind == Some('y') then Capitalized(Lower(style), Upper(style), s)
    else if kind == Some('Y') then Capitalized(Upper(style), Lower(style), s)
    else s
  }

  method TextToStr(style: Style, s: FmtSpec, v: Value)
    requires v.Str? || v.Null? || v.Undef?
    modifies s`buf
    ensures s.buf == Shown(v, if v.Str? then CasedText(style, s.spec.kind, v.s) else "")
  {
    var skip := CheckSpecials(s, v);
    if !skip {
      s.buf := v.s;
      if s.spec.kind == Some('t') {
        s.buf := Mapped(Lower(style), s.buf);
      } else if s.spec.kind == Some('T') {
        s.buf := Mapped(Upper(style), s.buf);
      } else if s.spec.kind == Some('y') && |s.buf| > 0 {
        s.buf := [Lower(style)(s.buf[0])] + Mapped(Upper(style), s.buf[1..]);
      } else if s.spec.kind == Some('Y') && |s.buf| > 0 {
        s.buf := [Upper(style)(s.buf[0])] + Mapped(Lower(style), s.buf[1..]);
      }
    }
  }

  function BoolText(kind: char, b: bool): string {
    match kind
    case 'l' => if b then "true" else "false"
    case 'L' => if b then "TRUE" else "FALSE"
    case 'z' => if b then "tRUE" else "fALSE"
    case 'Z' => if b then "True" else "False"
    case _ => ""
  }

  method BoolToStr(ops: Ops, s: FmtSpec, v: Value)
    requires s.buf == "" && s.spec.kind.Some?
    modifies s`buf
    ensures s.buf == Shown(v, BoolText(s.spec.kind.value, BoolOf(ops, v)))
  {
    var skip := CheckSpecials(s, v);
    if !skip {
      s.buf := BoolText(s.spec.kind.value, BoolOf(ops, v));
    }
  }

  /** The text type that spells words as a boolean type does. */
  function SameCase(kind: char): char {
    match kind
    case 'l' => 't'
    case 'L' => 'T'
    case 'z' => 'y'
    case _ => 'Y'
  }

  /** A boolean type prints a boolean as the text type of the same case prints its name. */
  lemma BooleansAreCasedTexts(style: Style, kind: char, b: bool)
    requires kind == 'l' || kind == 'L' || kind == 'z' || kind == 'Z'
    ensures BoolText(kind, b) == CasedText(style, Some(SameCase(kind)), if b then "true" else "false")
  {
    var s := if b then "true" else "false";
    var text, cased := BoolText(kind, b), CasedText(style, Some(SameCase(kind)), s);
    assert |text| == |cased| == |s|;
    forall i | 0 <= i < |s| ensures text[i] == cased[i] {
      assert 'a' <= s[i] <= 'z';
    }
  }
}
