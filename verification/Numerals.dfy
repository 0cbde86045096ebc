/** Numerals in the radices that the formatter and the tokenizer share. */
module Numerals {

  /** `hex_table` of src/main/expr/format.cpp. */
  function DigitChar(d: nat, upper: bool): char
    requires d < 16
  {
    if d < 10 then '0' + d as char else if upper then 'A' + (d - 10) as char else 'a' + (d - 10) as char
  }

  /** Division by a radix, for the recursions over digits. */
  lemma Quotient(x: nat, d: nat)
    requires 2 <= d
    ensures x == x / d * d + x % d && 0 <= x % d < d && 0 <= x / d <= x
    ensures (x > 0 ==> x / d < x) && (x / d == 0 <==> x < d)
    ensures x < d ==> x % d == x
  {
    var q := x / d;
    assert x == q * d + x % d;
    if x >= d && q == 0 {
      assert false;
    }
    assert q * d >= q * 2;
  }

  /** The numeral of `n`, most significant digit first. */
  function Numeral(n: nat, radix: nat, upper: bool): (r: string)
    requires 2 <= radix <= 16
    ensures r != []
  {
    if n < radix then [DigitChar(n, upper)]
    else Numeral(n / radix, radix, upper) + [DigitChar(n % radix, upper)]
  }

  /** What the format "%ld" prints. */
  function SignedDecimal(n: int): (r: string)
    ensures r != []
  {
    if n < 0 then "-" + Numeral(-n, 10, false) else Numeral(n, 10, false)
  }

  predicate IsDigit(c: char) {
    '0' <= c <= '9'
  }
}
