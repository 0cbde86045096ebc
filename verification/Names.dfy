/** Variable names: their order (src/main/runtime/LSPString.cpp) and the flattening of an
    indexed name (src/main/expr/Variables.cpp, src/main/expr/Parameters.cpp). */
module Names {
  import opened Basics
  import opened Numerals

  predicate NulFree(s: string) {
    forall i :: 0 <= i < |s| ==> s[i] != '\0'
  }

  /** A name without the character zero, as every identifier and every C string is. */
  type Name = s: string | NulFree(s)

  /** `LSPString::compare_to`. */
  function CompareTo(a: string, b: string): int {
    if a == [] then if b == [] then 0 else -(b[0] as int)
    else if b == [] then a[0] as int
    else if a[0] != b[0] then a[0] as int - b[0] as int
    else CompareTo(a[1..], b[1..])
  }

  /** Zero does not mean equality for every string: a string also compares equal to itself
      with a zero character and anything else appended. */
  lemma {:induction false} ComparesEqual(a: string, b: string)
    ensures CompareTo(a, b) == 0 <==>
      a == b || (a < b && b[|a|] == '\0') || (b < a && a[|b|] == '\0')
  {
    if a != [] && b != [] && a[0] == b[0] {
      ComparesEqual(a[1..], b[1..]);
      assert a == [a[0]] + a[1..] && b == [b[0]] + b[1..];
      assert a <= b <==> a[1..] <= b[1..];
      assert b <= a <==> b[1..] <= a[1..];
    }
  }

  /** The first difference decides, and of a string and its beginning the beginning is less. */
  lemma {:induction false} FirstDifference(a: string, b: string, k: nat)
    requires k <= |a| && k <= |b| && a[..k] == b[..k]
    ensures k < |a| && k < |b| && a[k] != b[k] ==> CompareTo(a, b) == a[k] as int - b[k] as int
    ensures k == |a| < |b| ==> CompareTo(a, b) == -(b[k] as int)
  {
    if k > 0 {
      assert a[0] == a[..k][0] == b[..k][0] == b[0];
      assert a[1..][..k - 1] == a[..k][1..] && b[1..][..k - 1] == b[..k][1..];
      FirstDifference(a[1..], b[1..], k - 1);
    }
  }

  lemma DifferentButEqual()
    ensures CompareTo("a", "a\0b") == 0 && "a" != "a\0b"
  {
    ComparesEqual("a", "a\0b");
  }

  lemma {:induction false} CompareOpposite(a: string, b: string)
    ensures CompareTo(a, b) == -CompareTo(b, a)
  {
    if a != [] && b != [] {
      CompareOpposite(a[1..], b[1..]);
    }
  }

  /** On names, zero means equality and "less" is transitive. */
  lemma CompareNames(a: Name, b: Name)
    ensures CompareTo(a, b) == 0 <==> a == b
    ensures CompareTo(a, b) == -CompareTo(b, a)
  {
    ComparesEqual(a, b);
    CompareOpposite(a, b);
  }

  lemma {:induction false} CompareTransitive(a: Name, b: Name, c: Name)
    requires CompareTo(a, b) < 0 && CompareTo(b, c) < 0
    ensures CompareTo(a, c) < 0
  {
    if a != [] && b != [] && c != [] {
      if a[0] == b[0] == c[0] {
        CompareTransitive(a[1..], b[1..], c[1..]);
      }
    }
  }

  // ------------------------------------------------------------------

  /** `name_i_j...`: the name under which an indexed variable is stored. */
  function Flatten(name: Name, indexes: seq<Int64>): (r: Name)
    decreases |indexes|
  {
    if indexes == [] then name
    else
      var last := |indexes| - 1;
      var head, text := Flatten(name, indexes[..last]), "_" + SignedDecimal(indexes[last]);
      SignedDecimalNulFree(indexes[last]);
      head + text
  }

  lemma SignedDecimalNulFree(n: int)
    ensures NulFree(SignedDecimal(n))
  {
    NumeralNulFree(if n < 0 then -n else n);
  }

  lemma {:induction false} NumeralNulFree(n: nat)
    ensures NulFree(Numeral(n, 10, false))
  {
    if n >= 10 {
      NumeralNulFree(n / 10);
    }
  }
}
