/** Malformed percent encodings: src/main/fmt/url.cpp. */
module UrlEscapes {
  import opened Basics
  import opened Utf8
  import opened Url

  predicate IsHexDigit(c: nat) {
    || '0' as nat <= c <= '9' as nat
    || 'a' as nat <= c <= 'f' as nat
    || 'A' as nat <= c <= 'F' as nat
  }

  /** Two hex digits follow the percent sign at `i`. */
  predicate Complete(s: seq<nat>, i: nat) {
    i + 2 < |s| && IsHexDigit(s[i + 1]) && IsHexDigit(s[i + 2])
  }

  predicate AllComplete(s: seq<nat>) {
    forall i :: 0 <= i < |s| && s[i] == PERCENT ==> Complete(s, i)
  }

  lemma HexDigitsAgree(c: nat)
    ensures HexValue(c) >= 0 <==> IsHexDigit(c)
    ensures IsHexDigit(c) ==> c != PERCENT
  {
  }

  lemma CompleteShift(s: seq<nat>, k: nat, i: nat)
    requires k <= i < |s|
    ensures s[k..][i - k] == s[i] && (Complete(s[k..], i - k) <==> Complete(s, i))
  {
  }

  /** The rest behind characters that are no percent signs, but for one that starts an escape. */
  lemma CompleteBehind(s: seq<nat>, k: nat)
    requires k <= |s| && forall i :: 0 <= i < k && s[i] == PERCENT ==> Complete(s, i)
    ensures AllComplete(s) <==> AllComplete(s[k..])
  {
    if AllComplete(s[k..]) {
      forall i | 0 <= i < |s| && s[i] == PERCENT ensures Complete(s, i) {
        if i >= k {
          CompleteShift(s, k, i);
        }
      }
    }
    if AllComplete(s) {
      forall i | 0 <= i < |s[k..]| && s[k..][i] == PERCENT ensures Complete(s[k..], i) {
        CompleteShift(s, k, k + i);
      }
    }
  }

  lemma EscapeFirst(s: seq<nat>)
    requires s != [] && s[0] == PERCENT && Complete(s, 0)
    ensures AllComplete(s) <==> AllComplete(s[3..])
  {
    HexDigitsAgree(s[1]);
    HexDigitsAgree(s[2]);
    CompleteBehind(s, 3);
  }

  /** A run is malformed, or what follows it decides. */
  lemma {:induction false} RunComplete(s: seq<nat>)
    requires s != [] && s[0] == PERCENT
    ensures ReadRun(s).Malformed? ==> !AllComplete(s)
    ensures ReadRun(s).Run? ==> (AllComplete(s) <==> AllComplete(ReadRun(s).rest))
    decreases |s|
  {
    if Complete(s, 0) {
      HexDigitsAgree(s[1]);
      HexDigitsAgree(s[2]);
      EscapeFirst(s);
      if |s| > 3 && s[3] == PERCENT {
        RunComplete(s[3..]);
      }
    } else if |s| >= 3 {
      HexDigitsAgree(s[1]);
      HexDigitsAgree(s[2]);
    }
  }

  /** Decoding succeeds exactly if two hex digits follow every percent sign, and reports corrupted
      data otherwise. */
  lemma {:induction false} FailsExactly(s: seq<nat>)
    ensures Decoded(s).0 == if AllComplete(s) then Success else Corrupted
    decreases |s|
  {
    if s != [] {
      if s[0] == PERCENT {
        RunComplete(s);
        if ReadRun(s).Run? {
          FailsExactly(ReadRun(s).rest);
        }
      } else {
        CompleteBehind(s, 1);
        FailsExactly(s[1..]);
      }
    }
  }

  // ------------------------------------------------------------------
  // What is kept of a string that is malformed.

  /** The first malformed escape stands at `i`, in a run of escapes that starts at `j`. */
  predicate FailsIn(s: seq<nat>, j: nat, i: nat) {
    && j <= i < |s| && (i - j) % 3 == 0
    && s[i] == PERCENT && !Complete(s, i)
    && (forall k :: 0 <= k < i && s[k] == PERCENT ==> Complete(s, k))
    && (forall k :: j <= k < i && (k - j) % 3 == 0 ==> s[k] == PERCENT)
    && (j >= 3 ==> s[j - 3] != PERCENT)
  }

  lemma FailsBehind(s: seq<nat>, j: nat, i: nat, k: nat)
    requires FailsIn(s, j, i) && k <= j
    ensures FailsIn(s[k..], j - k, i - k)
  {
    CompleteShift(s, k, i);
    forall m | 0 <= m < i - k && s[k..][m] == PERCENT ensures Complete(s[k..], m) {
      CompleteShift(s, k, k + m);
    }
    forall m | j - k <= m < i - k && (m - (j - k)) % 3 == 0 ensures s[k..][m] == PERCENT {
      CompleteShift(s, k, k + m);
    }
  }

  lemma {:induction false} RunFails(s: seq<nat>, i: nat)
    requires FailsIn(s, 0, i)
    ensures ReadRun(s) == Malformed
    decreases |s|
  {
    HexDigitsAgree(CharAt(s, 1));
    HexDigitsAgree(CharAt(s, 2));
    assert s[0] == PERCENT;
    if i > 0 {
      assert i >= 3 && s[3] == PERCENT;
      RunRest(s, i);
      RunFails(s[3..], i - 3);
    }
  }

  lemma RunRest(s: seq<nat>, i: nat)
    requires FailsIn(s, 0, i) && i >= 3
    ensures FailsIn(s[3..], 0, i - 3)
  {
    forall m | 0 <= m <= i - 3 ensures s[3..][m] == s[3 + m] && (Complete(s[3..], m) <==> Complete(s, 3 + m)) {
      CompleteShift(s, 3, 3 + m);
    }
    forall m | 0 <= m < i - 3 && m % 3 == 0 ensures s[3..][m] == PERCENT {
      assert (3 + m - 0) % 3 == 0;
    }
  }

  lemma OneEscape(s: seq<nat>)
    requires s != [] && s[0] == PERCENT && Complete(s, 0)
    ensures 0 <= ByteAt(s, 0) && ReadRun(s) == Prepend([ByteAt(s, 0)], RunFrom(s, 3))
  {
    HexDigitsAgree(s[1]);
    HexDigitsAgree(s[2]);
  }

  lemma OneEscapeApart(s: seq<nat>, j: nat)
    requires 3 <= j < |s| && s[0] == PERCENT && Complete(s, 0)
    ensures 0 <= ByteAt(s, 0) && ReadRun(s[..j]) == Prepend([ByteAt(s, 0)], RunFrom(s[..j], 3))
  {
    OneEscape(s);
    OneEscape(s[..j]);
  }

  predicate CompleteBelow(s: seq<nat>, j: nat)
    requires j <= |s|
  {
    forall k :: 0 <= k < j && s[k] == PERCENT ==> Complete(s, k)
  }

  lemma CompleteBelowBehind(s: seq<nat>, j: nat)
    requires 3 <= j <= |s| && CompleteBelow(s, j)
    ensures CompleteBelow(s[3..], j - 3)
  {
    forall k | 0 <= k < j - 3 && s[3..][k] == PERCENT ensures Complete(s[3..], k) {
      CompleteShift(s, 3, 3 + k);
    }
  }

  /** A run that ends before `j` is read alike without the characters from `j` on. */
  lemma {:induction false} RunApart(s: seq<nat>, j: nat) returns (e: nat, bytes: seq<Byte>)
    requires 0 < j < |s| && s[0] == PERCENT && s[j] == PERCENT && (j >= 3 ==> s[j - 3] != PERCENT)
    requires CompleteBelow(s, j)
    ensures 3 <= e <= j && ReadRun(s) == Run(bytes, s[e..]) && ReadRun(s[..j]) == Run(bytes, s[e..j])
    decreases |s|
  {
    HexDigitsAgree(s[1]);
    HexDigitsAgree(s[2]);
    OneEscape(s);
    OneEscapeApart(s, j);
    e, bytes := 3, [ByteAt(s, 0)];
    assert s[..j][3..] == s[3..j];
    if s[3] == PERCENT {
      CompleteBelowBehind(s, j);
      var d, more := RunApart(s[3..], j - 3);
      assert s[3..][d..] == s[3 + d..] && s[3..][..j - 3] == s[3..j] && s[3..][d..j - 3] == s[3 + d..j];
      e, bytes := 3 + d, bytes + more;
    } else {
      assert bytes + [] == bytes;
    }
  }

  /** Strings that fail, the part that is kept apart: decoding the rests fails in this way. */
  ghost predicate Keeps(s: seq<nat>, j: nat)
    requires j <= |s|
  {
    Decoded(s) == (Corrupted, Decoded(s[..j]).1)
  }

  lemma KeepsLiteral(s: seq<nat>, j: nat)
    requires 0 < j <= |s| && s[0] != PERCENT && Keeps(s[1..], j - 1)
    ensures Keeps(s, j)
  {
    assert s[..j][1..] == s[1..][..j - 1];
  }

  lemma KeepsRun(s: seq<nat>, j: nat, e: nat, bytes: seq<Byte>)
    requires 0 < e <= j <= |s| && s[0] == PERCENT && Keeps(s[e..], j - e)
    requires ReadRun(s) == Run(bytes, s[e..]) && ReadRun(s[..j]) == Run(bytes, s[e..j])
    ensures Keeps(s, j)
  {
    assert s[e..][..j - e] == s[e..j];
  }

  /** Of a malformed string everything is kept that stands before the run with the first malformed
      escape; the complete escapes of that run are dropped with it. */
  lemma {:induction false} KeptBeforeRun(s: seq<nat>, j: nat, i: nat)
    requires FailsIn(s, j, i)
    ensures Decoded(s) == (Corrupted, Decoded(s[..j]).1)
    decreases |s|
  {
    if j == 0 {
      RunFails(s, i);
    } else if s[0] == PERCENT {
      var e, bytes := RunApart(s, j);
      FailsBehind(s, j, i, e);
      KeptBeforeRun(s[e..], j - e, i - e);
      KeepsRun(s, j, e, bytes);
    } else {
      FailsBehind(s, j, i, 1);
      KeptBeforeRun(s[1..], j - 1, i - 1);
      KeepsLiteral(s, j);
    }
  }

  lemma {:induction false} RunStart(s: seq<nat>, j: nat, i: nat) returns (start: nat)
    requires j <= i < |s| && (i - j) % 3 == 0 && s[i] == PERCENT && !Complete(s, i) && CompleteBelow(s, i)
    requires forall k :: j <= k < i && (k - j) % 3 == 0 ==> s[k] == PERCENT
    ensures FailsIn(s, start, i)
  {
    start := j;
    if j >= 3 && s[j - 3] == PERCENT {
      start := RunStart(s, j - 3, i);
    }
  }

  /** Every malformed string fails in some run. */
  lemma FirstFailure(s: seq<nat>) returns (j: nat, i: nat)
    requires !AllComplete(s)
    ensures FailsIn(s, j, i)
  {
    i := 0;
    while s[i] != PERCENT || Complete(s, i)
      invariant i < |s| && CompleteBelow(s, i)
      decreases |s| - i
    {
      i := i + 1;
    }
    j := RunStart(s, i, i);
  }
}
