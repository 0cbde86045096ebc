/** Flattened names: src/main/expr/Variables.cpp and src/main/expr/Parameters.cpp. */
module FlatNames {
  import opened Basics
  import opened Names
  import opened Numerals
  import opened Lexing
  import N = NumberText

  // ------------------------------------------------------------------
  // How the indexes are appended.

  lemma FlattenOne(name: Name, i: Int64)
    ensures Flatten(name, [i]) == name + "_" + SignedDecimal(i)
  {
    assert [i][..0] == [];
    assert name + ("_" + SignedDecimal(i)) == name + "_" + SignedDecimal(i);
  }

  /** Indexes are appended from left to right: those behind others go to the name that these give. */
  lemma {:induction false} FlattenAppend(name: Name, a: seq<Int64>, b: seq<Int64>)
    ensures Flatten(name, a + b) == Flatten(Flatten(name, a), b)
    decreases |b|
  {
    if b == [] {
      assert a + b == a;
    } else {
      var last := |b| - 1;
      assert (a + b)[..|a + b| - 1] == a + b[..last];
      FlattenAppend(name, a, b[..last]);
    }
  }

  // ------------------------------------------------------------------
  // A flat name tells its indexes.

  /** An index is read back by the tokenizer as its number, with its sign. */
  lemma IndexReadsBack(kw: Keywords, n: Int64, rest: string)
    requires N.Stops(rest)
    ensures Lex(kw, TF_GET, SignedDecimal(n) + rest, 0)
         == Lexeme(IValue, SignedDecimal(n), n, |SignedDecimal(n)|, rest != "")
    ensures SignedDecimal(n)[0] == '-' <==> n < 0
  {
    var text := N.SignedText(n, 10, false, None, false);
    assert "" + Numeral(N.Magnitude(n), 10, false) == Numeral(N.Magnitude(n), 10, false);
    assert text == SignedDecimal(n);
    N.SignedRoundTrip(kw, n, 10, false, None, false, rest);
    PlainText(text);
    NumeralStart(N.Magnitude(n));
  }

  lemma PlainText(text: string)
    requires text != ""
    ensures N.WithPrefix(text, "") == text
  {
    assert [text[0]] + "" + text[1..] == text;
    assert "" + text == text;
  }

  lemma {:induction false} NumeralStart(n: nat)
    ensures forall i :: 0 <= i < |Numeral(n, 10, false)| ==> IsDigit(Numeral(n, 10, false)[i])
    decreases n
  {
    if n >= 10 {
      NumeralStart(n / 10);
    }
  }

  lemma IndexesDiffer(m: Int64, n: Int64)
    requires SignedDecimal(m) == SignedDecimal(n)
    ensures m == n
  {
    IndexReadsBack(_ => None, m, "");
    IndexReadsBack(_ => None, n, "");
  }

  lemma NoSeparator(n: Int64)
    ensures '_' !in SignedDecimal(n)
  {
    NumeralStart(N.Magnitude(n));
  }

  lemma SeparatorIsLast(a: string, d: string)
    requires '_' !in d
    ensures var s := a + "_" + d; s[|a|] == '_' && forall i :: |a| < i < |s| ==> s[i] != '_'
  {
    var s := a + "_" + d;
    forall i | |a| < i < |s| ensures s[i] != '_' {
      assert s[i] == d[i - |a| - 1];
    }
  }

  /** The last separator splits a name in one way. */
  lemma LastSeparator(a: string, d: string, b: string, e: string)
    requires a + "_" + d == b + "_" + e && '_' !in d && '_' !in e
    ensures a == b && d == e
  {
    var s, t := a + "_" + d, b + "_" + e;
    SeparatorIsLast(a, d);
    SeparatorIsLast(b, e);
    assert |a| == |b|;
    assert a == s[..|a|] && b == t[..|b|];
    assert d == s[|a| + 1..] && e == t[|b| + 1..];
  }

  lemma LastIndex(name: Name, a: seq<Int64>)
    requires a != []
    ensures Flatten(name, a) == Flatten(name, a[..|a| - 1]) + "_" + SignedDecimal(a[|a| - 1])
  {
    FlattenAppend(name, a[..|a| - 1], [a[|a| - 1]]);
    assert a[..|a| - 1] + [a[|a| - 1]] == a;
    FlattenOne(Flatten(name, a[..|a| - 1]), a[|a| - 1]);
  }

  lemma {:induction false} FlattenLength(name: Name, a: seq<Int64>)
    ensures |Flatten(name, a)| >= |name| + |a|
    decreases |a|
  {
    if a != [] {
      LastIndex(name, a);
      FlattenLength(name, a[..|a| - 1]);
    }
  }

  lemma LastIndexes(name: Name, a: seq<Int64>, b: seq<Int64>)
    requires a != [] && b != [] && Flatten(name, a) == Flatten(name, b)
    ensures Flatten(name, a[..|a| - 1]) == Flatten(name, b[..|b| - 1]) && a[|a| - 1] == b[|b| - 1]
  {
    var m, n := |a| - 1, |b| - 1;
    LastIndex(name, a);
    LastIndex(name, b);
    NoSeparator(a[m]);
    NoSeparator(b[n]);
    LastSeparator(Flatten(name, a[..m]), SignedDecimal(a[m]), Flatten(name, b[..n]), SignedDecimal(b[n]));
    IndexesDiffer(a[m], b[n]);
  }

  /** Under one name, different indexes have different flat names. */
  lemma {:induction false} FlatNamesDiffer(name: Name, a: seq<Int64>, b: seq<Int64>)
    requires Flatten(name, a) == Flatten(name, b)
    ensures a == b
    decreases |a|
  {
    if a == [] || b == [] {
      FlattenLength(name, a);
      FlattenLength(name, b);
    } else {
      LastIndexes(name, a, b);
      FlatNamesDiffer(name, a[..|a| - 1], b[..|b| - 1]);
      assert a == a[..|a| - 1] + [a[|a| - 1]] && b == b[..|b| - 1] + [b[|b| - 1]];
    }
  }

  /** Different names can have the same flat name: a_1[2] and a[1][2]. */
  lemma FlatNamesMeet()
    ensures Flatten("a_1", [2]) == Flatten("a", [1, 2]) == "a_1_2"
  {
    FlattenOne("a_1", 2);
    FlattenOne("a", 1);
    FlattenAppend("a", [1], [2]);
    assert [1] + [2] == [1, 2];
  }
}
