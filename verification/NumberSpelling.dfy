/** How numbers are written, and that the tokenizer of src/main/expr/Tokenizer.cpp reads every
    spelling as one number. */
module NumberSpelling {
  import opened Basics
  import opened Numerals
  import opened Lexing
  import opened Texts
  import N = NumberText

  /** A digit in either case, or a separator. */
  datatype Digit = Digit(v: nat, upper: bool) | Separator

  /** An exponent; the tokenizer also takes a letter alone. */
  datatype Exponent = Exponent(letter: char, sign: string, digits: seq<Digit>)

  datatype Number = Number(sign: string, prefix: string, whole: seq<Digit>, frac: Option<seq<Digit>>,
                           exp: Option<Exponent>)

  function DigitText(d: Digit): string {
    if d.Separator? then "_"
    else if d.v >= 16 then ""
    else [DigitChar(d.v, d.upper)]
  }

  function DigitsText(ds: seq<Digit>): string {
    if ds == [] then "" else DigitText(ds[0]) + DigitsText(ds[1..])
  }

  /** The value of digits behind others that stand for `acc`. */
  function DigitsValue(ds: seq<Digit>, radix: nat, acc: nat): nat {
    if ds == [] then acc
    else DigitsValue(ds[1..], radix, if ds[0].Separator? then acc else acc * radix + ds[0].v)
  }

  /** The radix that a prefix selects, in either case of its letter. */
  function RadixOf(prefix: string): nat {
    match prefix
    case "" => 10
    case "0b" => 2
    case "0B" => 2
    case "0o" => 8
    case "0O" => 8
    case "0d" => 10
    case "0D" => 10
    case "0x" => 16
    case "0X" => 16
    case _ => 0
  }

  /** Digits of a radix; a separator may stand behind the first of them. */
  predicate AreDigits(ds: seq<Digit>, radix: nat) {
    && (ds != [] ==> ds[0].Digit?)
    && forall i :: 0 <= i < |ds| ==> ds[i].Digit? ==> ds[i].v < radix
  }

  predicate IsSignText(sign: string) {
    sign == "" || sign == "+" || sign == "-"
  }

  /** A number has digits before or behind its dot. The letter of an exponent is no digit, and a
      sign behind it needs digits. */
  predicate WellFormed(n: Number) {
    match n
    case Number(sign, prefix, whole, frac, exp) =>
      var radix := RadixOf(prefix);
      && radix != 0 && IsSignText(sign) && AreDigits(whole, radix)
      && (frac.Some? ==> AreDigits(frac.value, radix))
      && (whole != [] || (frac.Some? && frac.value != []))
      && (exp.Some? ==> IsExponentOf(exp.value, radix))
  }

  predicate IsExponentOf(exp: Exponent, radix: nat) {
    match exp
    case Exponent(letter, sign, digits) =>
      && (if radix == 16 then letter in "pP" else letter in "eEpP")
      && IsSignText(sign) && AreDigits(digits, radix) && (sign != "" ==> digits != [])
  }

  function FractionText(frac: Option<seq<Digit>>): string {
    if frac.None? then "" else "." + DigitsText(frac.value)
  }

  function ExponentText(exp: Option<Exponent>): string {
    if exp.None? then "" else [exp.value.letter] + (exp.value.sign + DigitsText(exp.value.digits))
  }

  function NumberText(n: Number): string {
    n.sign + (n.prefix + (DigitsText(n.whole) + (FractionText(n.frac) + ExponentText(n.exp))))
  }

  /** A number is an integer unless it has a dot or digits of an exponent. */
  predicate IsInteger(n: Number) {
    n.frac.None? && (n.exp.None? || n.exp.value.digits == [])
  }

  predicate IsDigitOf(c: char, radix: nat)
    requires radix <= 16
  {
    c == '_' || c in "0123456789abcdef"[..radix] || c in "0123456789ABCDEF"[..radix]
  }

  /** A character behind a number that would belong to it. */
  predicate Prolongs(n: Number, c: char)
    requires RadixOf(n.prefix) <= 16
  {
    || IsDigitOf(c, RadixOf(n.prefix))
    || (n.frac.None? && n.exp.None? && c == '.')
    || (n.exp.None? && c in "eEpP")
    || (n.exp.Some? && n.exp.value.digits == [] && (c == '+' || c == '-'))
    || (n.prefix == "" && n.frac.None? && n.exp.None? && DigitsText(n.whole) == "0" && c in "bBoOdDxX")
  }

  // ------------------------------------------------------------------
  // Digits.

  lemma DigitRead(d: Digit, radix: nat)
    requires 2 <= radix <= 16 && (d.Digit? ==> d.v < radix)
    ensures |DigitText(d)| == 1
    ensures DigitOf(DigitText(d)[0], radix) == Some(if d.Separator? then -1 else d.v)
  {
  }

  lemma NoDigit(c: char, radix: nat)
    requires radix == 2 || radix == 8 || radix == 10 || radix == 16
    ensures DigitOf(c, radix).Some? <==> IsDigitOf(c, radix)
  {
    if radix == 2 {
      assert "0123456789abcdef"[..2] == "01" == "0123456789ABCDEF"[..2];
    } else if radix == 8 {
      assert "0123456789abcdef"[..8] == "01234567" == "0123456789ABCDEF"[..8];
    } else if radix == 10 {
      assert "0123456789abcdef"[..10] == "0123456789" == "0123456789ABCDEF"[..10];
    } else {
      assert "0123456789abcdef"[..16] == "0123456789abcdef" && "0123456789ABCDEF"[..16] == "0123456789ABCDEF";
    }
  }

  /** The value behind one more digit. */
  function Next(d: Digit, radix: nat, acc: nat): nat {
    if d.Separator? then acc else acc * radix + d.v
  }

  lemma DigitScanned(t: string, o: nat, d: Digit, radix: nat, acc: nat, seen: bool)
    requires 2 <= radix <= 16 && Occurs(t, o, DigitText(d)) && (seen || d.Digit?) && (d.Digit? ==> d.v < radix)
    ensures o < |t| && |DigitText(d)| == 1
    ensures ScanDigits(t, o, radix, Wrap(acc), seen) == ScanDigits(t, o + 1, radix, Wrap(Next(d, radix, acc)), true)
  {
    DigitRead(d, radix);
    First(t, o, DigitText(d));
    if d.Digit? {
      N.WrapStep(acc, radix, d.v);
    }
  }

  lemma {:induction false} DigitsScanned(t: string, o: nat, ds: seq<Digit>, radix: nat, acc: nat, seen: bool)
    requires 2 <= radix <= 16 && Occurs(t, o, DigitsText(ds)) && (ds != [] ==> seen || ds[0].Digit?)
    requires forall i :: 0 <= i < |ds| ==> ds[i].Digit? ==> ds[i].v < radix
    requires var e := o + |DigitsText(ds)|; e < |t| ==> DigitOf(t[e], radix).None?
    ensures ScanDigits(t, o, radix, Wrap(acc), seen)
         == Digits(o + |DigitsText(ds)|, Wrap(DigitsValue(ds, radix, acc)), seen || ds != [], false)
    decreases |ds|
  {
    if ds != [] {
      Split(t, o, DigitText(ds[0]), DigitsText(ds[1..]));
      DigitScanned(t, o, ds[0], radix, acc, seen);
      DigitsScanned(t, o + 1, ds[1..], radix, Next(ds[0], radix, acc), true);
    }
  }

  // ------------------------------------------------------------------
  // The whole part.

  lemma PrefixRead(t: string, o: nat, prefix: string)
    requires Occurs(t, o, prefix) && prefix != "" && RadixOf(prefix) != 0
    ensures Prefix(t, o) == (RadixOf(prefix), o + 2, false)
  {
    First(t, o, prefix);
    assert t[o + 1] == prefix[1];
  }

  lemma PrefixedScanned(t: string, o: nat, n: Number)
    requires WellFormed(n) && n.prefix != "" && Occurs(t, o, n.prefix) && Occurs(t, o + 2, DigitsText(n.whole))
    requires var e := o + 2 + |DigitsText(n.whole)|; e < |t| ==> DigitOf(t[e], RadixOf(n.prefix)).None?
    ensures Prefix(t, o) == (RadixOf(n.prefix), o + 2, false)
    ensures ScanDigits(t, o + 2, RadixOf(n.prefix), 0, false)
         == Digits(o + 2 + |DigitsText(n.whole)|, Wrap(DigitsValue(n.whole, RadixOf(n.prefix), 0)),
                   n.whole != [], false)
  {
    assert Wrap(0) == 0;
    PrefixRead(t, o, n.prefix);
    DigitsScanned(t, o + 2, n.whole, RadixOf(n.prefix), 0, false);
  }

  lemma PlainPrefix(t: string, o: nat)
    requires o <= |t|
    requires CharIs(t, o, '0') && o + 1 < |t| ==> t[o + 1] !in "bBoOdDxX"
    ensures Prefix(t, o) == (10, if CharIs(t, o, '0') then o + 1 else o, CharIs(t, o, '0'))
  {
  }

  lemma PlainScanned(t: string, o: nat, ds: seq<Digit>)
    requires AreDigits(ds, 10) && Occurs(t, o, DigitsText(ds))
    requires var e := o + |DigitsText(ds)|; e < |t| ==> DigitOf(t[e], 10).None?
    requires CharIs(t, o, '0') && o + 1 < |t| ==> t[o + 1] !in "bBoOdDxX"
    ensures var (radix, body, zero) := Prefix(t, o);
      && radix == 10 && body <= |t|
      && ScanDigits(t, body, 10, 0, zero)
      == Digits(o + |DigitsText(ds)|, Wrap(DigitsValue(ds, 10, 0)), ds != [], false)
  {
    assert Wrap(0) == 0;
    PlainPrefix(t, o);
    if CharIs(t, o, '0') {
      ZeroFirst(t, o, ds);
      DigitsScanned(t, o + 1, ds[1..], 10, 0, true);
    } else {
      DigitsScanned(t, o, ds, 10, 0, false);
    }
  }

  lemma ZeroFirst(t: string, o: nat, ds: seq<Digit>)
    requires AreDigits(ds, 10) && Occurs(t, o, DigitsText(ds)) && CharIs(t, o, '0')
    requires var e := o + |DigitsText(ds)|; e < |t| ==> DigitOf(t[e], 10).None?
    ensures ds != [] && ds[0].v == 0 && Occurs(t, o + 1, DigitsText(ds[1..]))
    ensures |DigitsText(ds)| == 1 + |DigitsText(ds[1..])|
    ensures DigitsValue(ds, 10, 0) == DigitsValue(ds[1..], 10, 0)
  {
    assert DigitOf('0', 10).Some?;
    Split(t, o, DigitText(ds[0]), DigitsText(ds[1..]));
    DigitRead(ds[0], 10);
    First(t, o, DigitText(ds[0]));
  }

  // ------------------------------------------------------------------
  // The parts behind it.

  /** The number ends at offset `e`. */
  predicate Ends(t: string, e: nat, n: Number)
    requires RadixOf(n.prefix) <= 16
  {
    e < |t| ==> !Prolongs(n, t[e])
  }

  lemma NoMoreDigits(t: string, e: nat, n: Number)
    requires WellFormed(n) && Ends(t, e, n)
    ensures e < |t| ==> DigitOf(t[e], RadixOf(n.prefix)).None?
  {
    if e < |t| {
      NoDigit(t[e], RadixOf(n.prefix));
    }
  }

  lemma NoExponent(t: string, o: nat, w: Option<Int64>, at: nat, n: Number)
    requires WellFormed(n) && n.exp.None? && o <= at <= |t| && Ends(t, at, n)
    ensures WithExponent(t, o, RadixOf(n.prefix), w, at) == Plain(t, o, w, at)
  {
    assert at < |t| ==> t[at] !in "eEpP";
  }

  /** The value that an integer keeps. */
  function Kept(w: Option<Int64>, exp: Exponent): Option<Int64> {
    if exp.digits == [] then w else None
  }

  lemma ExponentEnds(t: string, o: nat, radix: nat, w: Option<Int64>, at: nat, exp: Digits)
    requires o <= at < |t| && t[at] in "eEpP" && exp.next <= |t| && !exp.misplaced
    requires exp == ScanDigits(t, if IsSign(t, at + 1) then at + 2 else at + 1, radix, 0, false)
    requires IsSign(t, at + 1) ==> exp.seen
    ensures o <= exp.next
    ensures WithExponent(t, o, radix, w, at) == Plain(t, o, if exp.seen then None else w, exp.next)
  {
  }

  lemma ExponentStands(t: string, at: nat, n: Number)
    requires WellFormed(n) && n.exp.Some? && Occurs(t, at, ExponentText(n.exp))
    ensures var exp := n.exp.value;
      && at < |t| && t[at] == exp.letter && t[at] in "eEpP"
      && Occurs(t, at + 1, exp.sign) && Occurs(t, at + 1 + |exp.sign|, DigitsText(exp.digits))
      && |ExponentText(n.exp)| == 1 + |exp.sign| + |DigitsText(exp.digits)|
  {
    var exp := n.exp.value;
    Split(t, at, [exp.letter], exp.sign + DigitsText(exp.digits));
    First(t, at, [exp.letter]);
    Split(t, at + 1, exp.sign, DigitsText(exp.digits));
    assert "pP"[0] == 'p' && "pP"[1] == 'P';
  }

  lemma ExponentLetter(t: string, at: nat, n: Number)
    requires WellFormed(n) && n.exp.Some? && Occurs(t, at, ExponentText(n.exp))
    ensures at < |t| && t[at] in "eEpP" && IsExponentOf(n.exp.value, RadixOf(n.prefix))
    ensures at + |ExponentText(n.exp)| <= |t|
  {
    ExponentStands(t, at, n);
  }

  lemma ExponentScanned(t: string, at: nat, n: Number)
    requires WellFormed(n) && n.exp.Some? && Occurs(t, at, ExponentText(n.exp))
    requires Ends(t, at + |ExponentText(n.exp)|, n)
    ensures var exp, radix := n.exp.value, RadixOf(n.prefix);
      && (IsSign(t, at + 1) <==> exp.sign != "") && at + 1 + |exp.sign| <= |t|
      && ScanDigits(t, at + 1 + |exp.sign|, radix, 0, false)
      == Digits(at + |ExponentText(n.exp)|, Wrap(DigitsValue(exp.digits, radix, 0)), exp.digits != [], false)
  {
    ExponentStands(t, at, n);
    NoMoreDigits(t, at + |ExponentText(n.exp)|, n);
    assert Wrap(0) == 0;
    DigitsScanned(t, at + 1 + |n.exp.value.sign|, n.exp.value.digits, RadixOf(n.prefix), 0, false);
    ExponentSign(t, at + 1, n);
  }

  lemma ExponentTaken(t: string, o: nat, w: Option<Int64>, at: nat, radix: nat, exp: Exponent, ds: Digits)
    requires o <= at < |t| && t[at] in "eEpP" && IsExponentOf(exp, radix) && (IsSign(t, at + 1) <==> exp.sign != "")
    requires at + 1 + |exp.sign| <= |t| && ds == ScanDigits(t, at + 1 + |exp.sign|, radix, 0, false)
    requires !ds.misplaced && (ds.seen <==> exp.digits != [])
    ensures o <= ds.next <= |t| && WithExponent(t, o, radix, w, at) == Plain(t, o, Kept(w, exp), ds.next)
  {
    ExponentEnds(t, o, radix, w, at, ds);
  }

  lemma ExponentRead(t: string, o: nat, w: Option<Int64>, at: nat, n: Number)
    requires WellFormed(n) && n.exp.Some? && o <= at && Occurs(t, at, ExponentText(n.exp))
    requires Ends(t, at + |ExponentText(n.exp)|, n)
    ensures at + |ExponentText(n.exp)| <= |t|
    ensures WithExponent(t, o, RadixOf(n.prefix), w, at)
         == Plain(t, o, Kept(w, n.exp.value), at + |ExponentText(n.exp)|)
  {
    var exp, radix := n.exp.value, RadixOf(n.prefix);
    ExponentLetter(t, at, n);
    ExponentScanned(t, at, n);
    ExponentTaken(t, o, w, at, radix, exp, ScanDigits(t, at + 1 + |exp.sign|, radix, 0, false));
  }

  /** Whether a sign stands behind the letter. */
  lemma ExponentSign(t: string, o: nat, n: Number)
    requires WellFormed(n) && n.exp.Some?
    requires Occurs(t, o, n.exp.value.sign) && Occurs(t, o + |n.exp.value.sign|, DigitsText(n.exp.value.digits))
    requires Ends(t, o + |n.exp.value.sign| + |DigitsText(n.exp.value.digits)|, n)
    ensures IsSign(t, o) <==> n.exp.value.sign != ""
  {
    var exp := n.exp.value;
    if exp.sign != "" {
      First(t, o, exp.sign);
    } else if exp.digits != [] {
      DigitRead(exp.digits[0], RadixOf(n.prefix));
      First(t, o, DigitsText(exp.digits));
    }
  }

  /** The value that is kept behind an exponent, if there is one. */
  function KeptBehind(w: Option<Int64>, exp: Option<Exponent>): Option<Int64> {
    if exp.None? then w else Kept(w, exp.value)
  }

  lemma ExponentOrEnd(t: string, o: nat, w: Option<Int64>, at: nat, n: Number)
    requires WellFormed(n) && o <= at && Occurs(t, at, ExponentText(n.exp)) && Ends(t, at + |ExponentText(n.exp)|, n)
    ensures at + |ExponentText(n.exp)| <= |t|
    ensures WithExponent(t, o, RadixOf(n.prefix), w, at)
         == Plain(t, o, KeptBehind(w, n.exp), at + |ExponentText(n.exp)|)
  {
    if n.exp.None? {
      NoExponent(t, o, w, at, n);
    } else {
      ExponentRead(t, o, w, at, n);
    }
  }

  /** No digit stands where an exponent or the end does. */
  lemma DigitsEnd(t: string, at: nat, n: Number)
    requires WellFormed(n) && Occurs(t, at, ExponentText(n.exp)) && Ends(t, at + |ExponentText(n.exp)|, n)
    ensures at < |t| ==> DigitOf(t[at], RadixOf(n.prefix)).None?
    ensures n.exp.Some? ==> at < |t| && t[at] in "eEpP"
  {
    if n.exp.Some? {
      ExponentStands(t, at, n);
    } else {
      NoMoreDigits(t, at, n);
    }
  }

  lemma FractionStands(t: string, at: nat, n: Number)
    requires n.frac.Some? && Occurs(t, at, FractionText(n.frac))
    ensures CharIs(t, at, '.') && Occurs(t, at + 1, DigitsText(n.frac.value))
    ensures |FractionText(n.frac)| == 1 + |DigitsText(n.frac.value)|
  {
    Split(t, at, ".", DigitsText(n.frac.value));
    First(t, at, ".");
  }

  lemma FractionScanned(t: string, at: nat, n: Number)
    requires WellFormed(n) && n.frac.Some? && Occurs(t, at, FractionText(n.frac))
    requires var e := at + |FractionText(n.frac)|; e < |t| ==> DigitOf(t[e], RadixOf(n.prefix)).None?
    ensures CharIs(t, at, '.')
    ensures ScanDigits(t, at + 1, RadixOf(n.prefix), 0, false)
         == Digits(at + |FractionText(n.frac)|, Wrap(DigitsValue(n.frac.value, RadixOf(n.prefix), 0)),
                   n.frac.value != [], false)
  {
    FractionStands(t, at, n);
    assert Wrap(0) == 0;
    DigitsScanned(t, at + 1, n.frac.value, RadixOf(n.prefix), 0, false);
  }

  /** The end of the number, from its first character `o` and the end `at` of its whole part on. */
  predicate BehindWhole(t: string, o: nat, at: nat, n: Number)
    requires RadixOf(n.prefix) <= 16
  {
    match n
    case Number(_, _, _, frac, exp) =>
      var dot := at + |FractionText(frac)|;
      && o < |t| && o <= at && Occurs(t, at, FractionText(frac)) && Occurs(t, dot, ExponentText(exp))
      && Ends(t, dot + |ExponentText(exp)|, n)
  }

  function EndOf(at: nat, n: Number): nat {
    at + |FractionText(n.frac)| + |ExponentText(n.exp)|
  }

  lemma WholeEnds(t: string, o: nat, at: nat, n: Number)
    requires WellFormed(n) && BehindWhole(t, o, at, n)
    ensures at < |t| ==> DigitOf(t[at], RadixOf(n.prefix)).None?
    ensures CharIs(t, at, '.') <==> n.frac.Some?
    ensures EndOf(at, n) <= |t|
  {
    DigitsEnd(t, at + |FractionText(n.frac)|, n);
    if n.frac.Some? {
      FractionStands(t, at, n);
    }
  }

  lemma FractionEnds(t: string, o: nat, radix: nat, whole: bool, frac: Digits)
    requires o <= frac.next <= |t| && !frac.misplaced && (whole || frac.seen)
    ensures AfterFraction(t, o, radix, whole, frac) == WithExponent(t, o, radix, None, frac.next)
  {
  }

  lemma FractionDigits(t: string, o: nat, at: nat, n: Number)
    requires WellFormed(n) && n.frac.Some? && BehindWhole(t, o, at, n)
    ensures CharIs(t, at, '.') && EndOf(at, n) <= |t|
    ensures ScanDigits(t, at + 1, RadixOf(n.prefix), 0, false)
         == Digits(at + |FractionText(n.frac)|, Wrap(DigitsValue(n.frac.value, RadixOf(n.prefix), 0)),
                   n.frac.value != [], false)
  {
    DigitsEnd(t, at + |FractionText(n.frac)|, n);
    FractionScanned(t, at, n);
  }

  lemma ExponentBehind(t: string, o: nat, at: nat, n: Number, w: Option<Int64>)
    requires WellFormed(n) && BehindWhole(t, o, at, n)
    ensures EndOf(at, n) <= |t|
    ensures WithExponent(t, o, RadixOf(n.prefix), w, at + |FractionText(n.frac)|)
         == Plain(t, o, KeptBehind(w, n.exp), EndOf(at, n))
  {
    var dot := at + |FractionText(n.frac)|;
    assert Occurs(t, dot, ExponentText(n.exp)) && Ends(t, dot + |ExponentText(n.exp)|, n);
    ExponentOrEnd(t, o, w, dot, n);
  }

  lemma FractionRead(t: string, o: nat, at: nat, n: Number, frac: Digits)
    requires WellFormed(n) && n.frac.Some? && BehindWhole(t, o, at, n)
    requires !frac.misplaced && frac.next == at + |FractionText(n.frac)| && (frac.seen <==> n.frac.value != [])
    ensures frac.next <= EndOf(at, n) <= |t|
    ensures AfterFraction(t, o, RadixOf(n.prefix), n.whole != [], frac) == Plain(t, o, None, EndOf(at, n))
  {
    ExponentBehind(t, o, at, n, None);
    FractionEnds(t, o, RadixOf(n.prefix), n.whole != [], frac);
  }

  /** The value of an integer, with its sign, in wrapping arithmetic. */
  function Signed(negative: bool, value: Int64): Int64 {
    if negative then Negated(value) else value
  }

  lemma DotRead(t: string, o: nat, at: nat, n: Number, value: Int64)
    requires WellFormed(n) && BehindWhole(t, o, at, n) && n.frac.Some?
    ensures at <= |t| && EndOf(at, n) <= |t|
    ensures AfterWhole(t, o, RadixOf(n.prefix), Digits(at, value, n.whole != [], false))
         == Plain(t, o, None, EndOf(at, n))
  {
    FractionDigits(t, o, at, n);
    var frac := ScanDigits(t, at + 1, RadixOf(n.prefix), 0, false);
    FractionRead(t, o, at, n, frac);
    DotEnds(t, o, RadixOf(n.prefix), Digits(at, value, n.whole != [], false), frac);
  }

  lemma DotEnds(t: string, o: nat, radix: nat, whole: Digits, frac: Digits)
    requires o <= whole.next < |t| && o < |t| && !whole.misplaced && t[whole.next] == '.'
    requires frac == ScanDigits(t, whole.next + 1, radix, 0, false)
    ensures AfterWhole(t, o, radix, whole) == AfterFraction(t, o, radix, whole.seen, frac)
  {
  }

  lemma IntegerEnds(t: string, o: nat, radix: nat, whole: Digits)
    requires o <= whole.next <= |t| && o < |t| && !whole.misplaced && whole.seen && !CharIs(t, whole.next, '.')
    ensures AfterWhole(t, o, radix, whole)
         == WithExponent(t, o, radix, Some(Signed(t[o] == '-', whole.value)), whole.next)
  {
  }

  lemma WholeRead(t: string, o: nat, at: nat, n: Number, value: Int64)
    requires WellFormed(n) && BehindWhole(t, o, at, n)
    ensures at <= |t| && EndOf(at, n) <= |t|
    ensures AfterWhole(t, o, RadixOf(n.prefix), Digits(at, value, n.whole != [], false))
         == Plain(t, o, if IsInteger(n) then Some(Signed(t[o] == '-', value)) else None, EndOf(at, n))
  {
    if n.frac.Some? {
      DotRead(t, o, at, n, value);
    } else {
      WholeEnds(t, o, at, n);
      IntegerEnds(t, o, RadixOf(n.prefix), Digits(at, value, true, false));
      ExponentBehind(t, o, at, n, Some(Signed(t[o] == '-', value)));
    }
  }

  // ------------------------------------------------------------------
  // The whole number.

  /** The number stands in `t` from its start to offset `e`, and ends there. */
  predicate Stands(t: string, n: Number)
    requires RadixOf(n.prefix) <= 16
  {
    match n
    case Number(sign, prefix, whole, _, _) =>
      var body := |sign| + |prefix|;
      && Occurs(t, 0, sign) && Occurs(t, |sign|, prefix) && Occurs(t, body, DigitsText(whole))
      && BehindWhole(t, 0, body + |DigitsText(whole)|, n)
  }

  lemma FiveParts(t: string, a: string, b: string, c: string, d: string, e: string)
    requires Occurs(t, 0, a + (b + (c + (d + e))))
    ensures Occurs(t, 0, a) && Occurs(t, |a|, b) && Occurs(t, |a| + |b|, c)
    ensures Occurs(t, |a| + |b| + |c|, d) && Occurs(t, |a| + |b| + |c| + |d|, e)
  {
    Split(t, 0, a, b + (c + (d + e)));
    Split(t, |a|, b, c + (d + e));
    Split(t, |a| + |b|, c, d + e);
    Split(t, |a| + |b| + |c|, d, e);
  }

  lemma EndsBefore(text: string, n: Number, rest: string)
    requires WellFormed(n) && (rest == "" || !Prolongs(n, rest[0]))
    ensures Ends(text + rest, |text|, n) && Occurs(text + rest, 0, text)
  {
    assert rest != "" ==> (text + rest)[|text|] == rest[0];
  }

  lemma NumberStands(n: Number, rest: string)
    requires WellFormed(n) && (rest == "" || !Prolongs(n, rest[0]))
    ensures Stands(NumberText(n) + rest, n)
    ensures EndOf(WholeEnd(n), n) == |NumberText(n)|
  {
    EndsBefore(NumberText(n), n, rest);
    NotEmpty(n);
    FiveParts(NumberText(n) + rest, n.sign, n.prefix, DigitsText(n.whole), FractionText(n.frac), ExponentText(n.exp));
  }

  lemma NotEmpty(n: Number)
    requires WellFormed(n)
    ensures NumberText(n) != ""
  {
    if n.whole != [] {
      DigitRead(n.whole[0], RadixOf(n.prefix));
    }
  }

  /** A zero without a prefix is no prefix. */
  lemma NoPrefix(t: string, n: Number)
    requires WellFormed(n) && n.prefix == "" && Stands(t, n)
    ensures var o := |n.sign|; CharIs(t, o, '0') && o + 1 < |t| ==> t[o + 1] !in "bBoOdDxX"
  {
    var o := |n.sign|;
    if n.whole != [] {
      DigitRead(n.whole[0], 10);
      SecondCharacter(t, n);
    } else {
      FractionStands(t, o, n);
    }
  }

  lemma SecondDigit(t: string, o: nat, ds: seq<Digit>)
    requires AreDigits(ds, 10) && |ds| > 1 && Occurs(t, o, DigitsText(ds))
    ensures o + 1 < |t| && t[o + 1] !in "bBoOdDxX"
  {
    Split(t, o, DigitText(ds[0]), DigitsText(ds[1..]));
    Split(t, o + |DigitText(ds[0])|, DigitText(ds[1]), DigitsText(ds[1..][1..]));
    DigitRead(ds[0], 10);
    DigitRead(ds[1], 10);
    First(t, o + 1, DigitText(ds[1]));
  }

  lemma SecondCharacter(t: string, n: Number)
    requires WellFormed(n) && n.prefix == "" && n.whole != [] && Stands(t, n)
    ensures var o := |n.sign|; CharIs(t, o, '0') && o + 1 < |t| ==> t[o + 1] !in "bBoOdDxX"
  {
    if |n.whole| > 1 {
      SecondDigit(t, |n.sign|, n.whole);
    } else {
      BehindOneDigit(t, n);
    }
  }

  lemma BehindOneDigit(t: string, n: Number)
    requires WellFormed(n) && n.prefix == "" && |n.whole| == 1 && Stands(t, n)
    ensures var o := |n.sign|; CharIs(t, o, '0') && o + 1 < |t| ==> t[o + 1] !in "bBoOdDxX"
  {
    var o := |n.sign|;
    DigitRead(n.whole[0], 10);
    assert DigitsText(n.whole) == DigitText(n.whole[0]);
    if n.frac.Some? {
      FractionStands(t, o + 1, n);
    } else if n.exp.Some? {
      DigitsEnd(t, o + 1, n);
      NoPrefixLetter(t[o + 1]);
    } else {
      First(t, o, DigitsText(n.whole));
    }
  }

  lemma NoPrefixLetter(c: char)
    requires c in "eEpP"
    ensures c !in "bBoOdDxX"
  {
  }

  // ------------------------------------------------------------------

  lemma NumberFirst(kw: Keywords, flags: Flags, t: string)
    requires t != "" && (IsNumeral(t[0]) || t[0] == '.' || (!flags.xsign && (t[0] == '+' || t[0] == '-')))
    ensures Lex(kw, flags, t, 0) == NumberAt(t, 0)
  {
    NoSymbol(t[0]);
    assert SkipSpace(t, 0) == 0;
    assert TokenAt(kw, flags, t, 0) == NumberAt(t, 0);
  }

  lemma NoSymbol(c: char)
    requires IsNumeral(c) || c == '.' || c == '+' || c == '-'
    ensures SingleSymbol(c).None? && PairSymbol(c).None? && !IsIdentifierFirst(c) && !IsSpace(c)
    ensures c != '#' && c != '@' && c != '<' && c != ':' && c != '\''
  {
  }

  predicate IsNumeral(c: char) {
    '0' <= c <= '9'
  }

  lemma FirstCharacter(t: string, n: Number)
    requires WellFormed(n) && Stands(t, n)
    ensures t != "" && (t[0] == '+' || t[0] == '-' <==> n.sign != "") && (t[0] == '-' <==> n.sign == "-")
    ensures n.sign == "" ==> IsNumeral(t[0]) || t[0] == '.'
    ensures IsSign(t, 0) <==> n.sign != ""
  {
    if n.sign != "" {
      First(t, 0, n.sign);
    } else if n.prefix != "" {
      First(t, 0, n.prefix);
    } else if n.whole != [] {
      DigitRead(n.whole[0], 10);
      Split(t, 0, DigitText(n.whole[0]), DigitsText(n.whole[1..]));
      First(t, 0, DigitText(n.whole[0]));
    } else {
      FractionStands(t, 0, n);
    }
  }

  /** The end of the whole part, behind the sign and the prefix. */
  function WholeEnd(n: Number): nat {
    |n.sign| + |n.prefix| + |DigitsText(n.whole)|
  }

  /** The digits of the whole part, as the tokenizer reads them. */
  function WholeDigits(n: Number): Digits {
    Digits(WholeEnd(n), Wrap(DigitsValue(n.whole, RadixOf(n.prefix), 0)), n.whole != [], false)
  }

  lemma NumberParts(t: string, s: nat, radix: nat, body: nat, zero: bool, whole: Digits)
    requires t != "" && s == (if IsSign(t, 0) then 1 else 0) && s <= |t|
    requires Prefix(t, s) == (radix, body, zero) && body <= |t| && whole == ScanDigits(t, body, radix, 0, zero)
    ensures NumberAt(t, 0) == AfterWhole(t, 0, radix, whole)
  {
  }

  lemma PlainBody(t: string, n: Number)
    requires WellFormed(n) && n.prefix == "" && Stands(t, n) && t != "" && (IsSign(t, 0) <==> n.sign != "")
    requires WholeEnd(n) < |t| ==> DigitOf(t[WholeEnd(n)], 10).None?
    ensures WholeEnd(n) <= |t| && NumberAt(t, 0) == AfterWhole(t, 0, 10, WholeDigits(n))
  {
    NoPrefix(t, n);
    PlainScanned(t, |n.sign|, n.whole);
    var (radix, body, zero) := Prefix(t, |n.sign|);
    NumberParts(t, |n.sign|, radix, body, zero, WholeDigits(n));
  }

  lemma PrefixedBody(t: string, n: Number)
    requires WellFormed(n) && n.prefix != "" && Stands(t, n) && t != "" && (IsSign(t, 0) <==> n.sign != "")
    requires WholeEnd(n) < |t| ==> DigitOf(t[WholeEnd(n)], RadixOf(n.prefix)).None?
    ensures WholeEnd(n) <= |t| && NumberAt(t, 0) == AfterWhole(t, 0, RadixOf(n.prefix), WholeDigits(n))
  {
    PrefixedScanned(t, |n.sign|, n);
    assert |n.prefix| == 2;
    NumberParts(t, |n.sign|, RadixOf(n.prefix), |n.sign| + 2, false, WholeDigits(n));
  }

  /** The value of an integer as it is written, in the arithmetic of 64 bits. */
  function ValueOf(n: Number): Int64 {
    Signed(n.sign == "-", Wrap(DigitsValue(n.whole, RadixOf(n.prefix), 0)))
  }

  lemma StandingRead(t: string, n: Number)
    requires WellFormed(n) && Stands(t, n)
    ensures t != "" && EndOf(WholeEnd(n), n) <= |t|
    ensures NumberAt(t, 0)
         == Plain(t, 0, if IsInteger(n) then Some(ValueOf(n)) else None, EndOf(WholeEnd(n), n))
  {
    FirstCharacter(t, n);
    WholeEnds(t, 0, WholeEnd(n), n);
    if n.prefix == "" {
      PlainBody(t, n);
    } else {
      PrefixedBody(t, n);
    }
    WholeRead(t, 0, WholeEnd(n), n, WholeDigits(n).value);
  }

  /** A number is read whole: with a sign, a prefix in either case, separators, a fraction and an
      exponent. It is a float if it has a dot or digits of an exponent, and otherwise an integer with
      the wrapped value of its digits. */
  lemma NumberRead(kw: Keywords, flags: Flags, n: Number, rest: string)
    requires WellFormed(n) && (rest == "" || !Prolongs(n, rest[0])) && (flags.xsign ==> n.sign == "")
    ensures var text := NumberText(n);
      Lex(kw, flags, text + rest, 0)
      == if IsInteger(n) then Lexeme(IValue, text, ValueOf(n), |text|, rest != "")
         else Lexeme(FValue, text, 0, |text|, rest != "")
  {
    var t := NumberText(n) + rest;
    NumberStands(n, rest);
    FirstCharacter(t, n);
    NumberFirst(kw, flags, t);
    StandingRead(t, n);
    assert t[0..|NumberText(n)|] == NumberText(n);
  }

  const ONE_E := Number("", "", [Digit(1, false)], None, Some(Exponent('e', "", [])))

  lemma OneELetters()
    ensures WellFormed(ONE_E) && NumberText(ONE_E) == "1e" && ValueOf(ONE_E) == 1 && IsInteger(ONE_E)
  {
    assert ONE_E.whole[1..] == [] && DigitsText(ONE_E.whole) == "1";
    assert "eEpP"[0] == 'e';
  }

  /** The letter of an exponent is read with a number, even if no digits follow. */
  lemma LetterSwallowed(kw: Keywords)
    ensures Lex(kw, TF_GET, "1e", 0) == Lexeme(IValue, "1e", 1, 2, false)
  {
    OneELetters();
    assert "1e" + "" == "1e";
    NumberRead(kw, TF_GET, ONE_E, "");
  }

  // ------------------------------------------------------------------
  // Texts that are no numbers.

  /** The start of a number, up to a dot or the letter of an exponent. */
  datatype Head = Head(sign: string, prefix: string, whole: seq<Digit>, mark: char)

  predicate IsHead(h: Head) {
    match h
    case Head(sign, prefix, whole, mark) =>
      var radix := RadixOf(prefix);
      && radix != 0 && IsSignText(sign) && AreDigits(whole, radix)
      && (mark == '.' || (whole != [] && if radix == 16 then mark in "pP" else mark in "eEpP"))
  }

  function HeadLength(h: Head): nat {
    |h.sign| + |h.prefix| + |DigitsText(h.whole)|
  }

  function HeadText(h: Head): string {
    h.sign + (h.prefix + (DigitsText(h.whole) + [h.mark]))
  }

  function HeadDigits(h: Head): Digits {
    Digits(HeadLength(h), Wrap(DigitsValue(h.whole, RadixOf(h.prefix), 0)), h.whole != [], false)
  }

  predicate HeadStands(t: string, h: Head) {
    match h
    case Head(sign, prefix, whole, mark) =>
      var body := |sign| + |prefix|;
      && Occurs(t, 0, sign) && Occurs(t, |sign|, prefix) && Occurs(t, body, DigitsText(whole))
      && CharIs(t, body + |DigitsText(whole)|, mark)
  }

  lemma HeadOccurs(t: string, h: Head)
    requires Occurs(t, 0, HeadText(h))
    ensures HeadStands(t, h)
  {
    FiveParts(t, h.sign, h.prefix, DigitsText(h.whole), [h.mark], "") by {
      assert [h.mark] + "" == [h.mark];
    }
    First(t, HeadLength(h), [h.mark]);
  }

  lemma MarkIsNoDigit(h: Head)
    requires IsHead(h)
    ensures DigitOf(h.mark, RadixOf(h.prefix)).None? && h.mark !in "bBoOdDxX"
  {
    if h.mark != '.' {
      NoPrefixLetter(h.mark);
    }
  }

  lemma HeadFirst(t: string, h: Head)
    requires IsHead(h) && HeadStands(t, h)
    ensures t != "" && (IsSign(t, 0) <==> h.sign != "") && (t[0] == '-' || t[0] == '+' ==> h.sign != "")
    ensures h.sign == "" ==> IsNumeral(t[0]) || t[0] == '.'
  {
    if h.sign != "" {
      First(t, 0, h.sign);
    } else if h.prefix != "" {
      First(t, 0, h.prefix);
    } else if h.whole != [] {
      DigitRead(h.whole[0], 10);
      Split(t, 0, DigitText(h.whole[0]), DigitsText(h.whole[1..]));
      First(t, 0, DigitText(h.whole[0]));
    }
  }

  lemma NoPrefixInHead(t: string, h: Head)
    requires IsHead(h) && HeadStands(t, h) && h.prefix == ""
    ensures var o := |h.sign|; CharIs(t, o, '0') && o + 1 < |t| ==> t[o + 1] !in "bBoOdDxX"
  {
    MarkIsNoDigit(h);
    if |h.whole| > 1 {
      SecondDigit(t, |h.sign|, h.whole);
    } else if h.whole != [] {
      DigitRead(h.whole[0], 10);
      assert DigitsText(h.whole) == DigitText(h.whole[0]);
    }
  }

  lemma HeadScanned(t: string, h: Head)
    requires IsHead(h) && HeadStands(t, h)
    ensures HeadLength(h) < |t| && t != "" && NumberAt(t, 0) == AfterWhole(t, 0, RadixOf(h.prefix), HeadDigits(h))
  {
    HeadFirst(t, h);
    MarkIsNoDigit(h);
    if h.prefix == "" {
      NoPrefixInHead(t, h);
      PlainScanned(t, |h.sign|, h.whole);
      var (radix, body, zero) := Prefix(t, |h.sign|);
      NumberParts(t, |h.sign|, radix, body, zero, HeadDigits(h));
    } else {
      PrefixRead(t, |h.sign|, h.prefix);
      assert |h.prefix| == 2 && Wrap(0) == 0;
      DigitsScanned(t, |h.sign| + 2, h.whole, RadixOf(h.prefix), 0, false);
      NumberParts(t, |h.sign|, RadixOf(h.prefix), |h.sign| + 2, false, HeadDigits(h));
    }
  }

  lemma SeparatorScanned(t: string, o: nat, radix: nat)
    requires CharIs(t, o, '_') && 2 <= radix <= 16
    ensures ScanDigits(t, o, radix, 0, false) == Digits(o, 0, false, true)
  {
  }

  lemma HeadBefore(h: Head, rest: string)
    requires IsHead(h)
    ensures var t := HeadText(h) + rest;
      && HeadStands(t, h) && |HeadText(h)| == HeadLength(h) + 1 && t[|HeadText(h)|..] == rest
  {
    var t := HeadText(h) + rest;
    assert Occurs(t, 0, HeadText(h));
    HeadOccurs(t, h);
  }

  lemma HeadRead(kw: Keywords, flags: Flags, t: string, h: Head)
    requires IsHead(h) && HeadStands(t, h) && (flags.xsign ==> h.sign == "")
    ensures HeadLength(h) < |t| && Lex(kw, flags, t, 0) == AfterWhole(t, 0, RadixOf(h.prefix), HeadDigits(h))
  {
    HeadFirst(t, h);
    NumberFirst(kw, flags, t);
    HeadScanned(t, h);
  }

  lemma DotSeparator(t: string, h: Head)
    requires IsHead(h) && HeadStands(t, h) && h.mark == '.' && CharIs(t, HeadLength(h) + 1, '_')
    ensures AfterWhole(t, 0, RadixOf(h.prefix), HeadDigits(h)) == Cut(t, 0, Unknown, HeadLength(h) + 2)
  {
    SeparatorScanned(t, HeadLength(h) + 1, RadixOf(h.prefix));
    DotEnds(t, 0, RadixOf(h.prefix), HeadDigits(h), Digits(HeadLength(h) + 1, 0, false, true));
  }

  lemma MarkIsExponent(h: Head)
    requires IsHead(h) && h.mark != '.'
    ensures h.whole != [] && h.mark in "eEpP"
  {
    assert "pP"[0] == 'p' && "pP"[1] == 'P';
  }

  /** What is read behind the letter of an exponent, with a sign or without, decides. */
  lemma ExponentBehindMark(t: string, h: Head, at: nat, signed: bool, ds: Digits)
    requires IsHead(h) && HeadStands(t, h) && h.mark != '.' && at == HeadLength(h) + 1 <= |t|
    requires signed == IsSign(t, at) && ds == ScanDigits(t, if signed then at + 1 else at, RadixOf(h.prefix), 0, false)
    ensures t != "" && ds.next <= |t| && (ds.misplaced ==> ds.next < |t|)
    ensures AfterWhole(t, 0, RadixOf(h.prefix), HeadDigits(h))
         == AfterExponent(t, 0, Some(Signed(t[0] == '-', HeadDigits(h).value)), signed, ds)
  {
    MarkIsExponent(h);
    IntegerEnds(t, 0, RadixOf(h.prefix), HeadDigits(h));
  }

  lemma ExponentSeparator(t: string, h: Head, esign: string)
    requires IsHead(h) && HeadStands(t, h) && h.mark != '.' && IsSignText(esign)
    requires Occurs(t, HeadLength(h) + 1, esign) && CharIs(t, HeadLength(h) + 1 + |esign|, '_')
    ensures AfterWhole(t, 0, RadixOf(h.prefix), HeadDigits(h)) == Cut(t, 0, Unknown, HeadLength(h) + 2 + |esign|)
  {
    var at := HeadLength(h) + 1;
    if esign != "" {
      First(t, at, esign);
    }
    SeparatorScanned(t, at + |esign|, RadixOf(h.prefix));
    ExponentBehindMark(t, h, at, esign != "", Digits(at + |esign|, 0, false, true));
  }

  /** A separator must not stand right behind the dot or behind the letter or the sign of an
      exponent: what is read up to it is no number. */
  lemma SeparatorMisplaced(kw: Keywords, flags: Flags, h: Head, esign: string, rest: string)
    requires IsHead(h) && IsSignText(esign) && (h.mark == '.' ==> esign == "") && (flags.xsign ==> h.sign == "")
    ensures var text := HeadText(h) + (esign + "_");
      Lex(kw, flags, text + rest, 0) == Lexeme(Unknown, text, 0, |text|, false)
  {
    var text, behind := HeadText(h) + (esign + "_"), esign + ("_" + rest);
    assert text + rest == HeadText(h) + behind;
    HeadBefore(h, behind);
    HeadRead(kw, flags, text + rest, h);
    SeparatorStands(text + rest, |HeadText(h)|, esign, rest);
    if h.mark == '.' {
      DotSeparator(text + rest, h);
    } else {
      ExponentSeparator(text + rest, h, esign);
    }
    assert (text + rest)[0..|text|] == text;
  }

  lemma SeparatorStands(t: string, at: nat, esign: string, rest: string)
    requires at <= |t| && t[at..] == esign + ("_" + rest)
    ensures Occurs(t, at, esign) && CharIs(t, at + |esign|, '_')
  {
    Leads(t, at, esign, "_" + rest);
    assert t[at + |esign|] == t[at..][|esign|];
  }

  /** A sign behind the letter of an exponent needs digits. */
  lemma ExponentUnfinished(kw: Keywords, flags: Flags, h: Head, esign: string, rest: string)
    requires IsHead(h) && h.mark != '.' && IsSignText(esign) && esign != "" && (flags.xsign ==> h.sign == "")
    requires rest == "" || DigitOf(rest[0], RadixOf(h.prefix)).None?
    ensures var text := HeadText(h) + esign;
      Lex(kw, flags, text + rest, 0) == Lexeme(Unknown, text, 0, |text|, rest != "")
  {
    var text, behind := HeadText(h) + esign, esign + rest;
    var t := text + rest;
    assert t == HeadText(h) + behind;
    HeadBefore(h, behind);
    HeadRead(kw, flags, t, h);
    var at := |HeadText(h)|;
    assert t[at..] == behind && t[at] == behind[0];
    assert rest != "" ==> t[at + 1] == rest[0];
    ExponentBehindMark(t, h, at, true, Digits(at + 1, 0, false, false));
    assert t[0..|text|] == text;
  }
}
