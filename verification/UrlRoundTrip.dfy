/** Encoding as section 2.1 of RFC 3986 prescribes, and decoding it again. */
module UrlRoundTrip {
  import opened Basics
  import opened Utf8
  import opened Url

  /** How one character is written: as it is, or as its UTF-8 bytes with hex digits in either case. */
  datatype Piece = Literal(c: nat) | Encoded(c: nat, upper: bool)

  predicate Valid(ps: seq<Piece>) {
    forall p :: p in ps ==> if p.Literal? then p.c != PERCENT else IsScalar(p.c)
  }

  function HexDigit(v: nat, upper: bool): nat
    requires v < 16
  {
    if v < 10 then '0' as nat + v else if upper then 'A' as nat + v - 10 else 'a' as nat + v - 10
  }

  function RenderBytes(bytes: seq<Byte>, upper: bool): seq<nat> {
    if bytes == [] then []
    else [PERCENT, HexDigit(bytes[0] / 16, upper), HexDigit(bytes[0] % 16, upper)] + RenderBytes(bytes[1..], upper)
  }

  function RenderPiece(p: Piece): seq<nat>
    requires p.Encoded? ==> IsScalar(p.c)
  {
    if p.Literal? then [p.c] else RenderBytes(Encode(p.c), p.upper)
  }

  function Render(ps: seq<Piece>): seq<nat>
    requires Valid(ps)
  {
    if ps == [] then [] else RenderPiece(ps[0]) + Render(ps[1..])
  }

  function Content(ps: seq<Piece>): (r: seq<nat>)
    ensures |r| == |ps| && forall i :: 0 <= i < |ps| ==> r[i] == ps[i].c
  {
    seq(|ps|, i requires 0 <= i < |ps| => ps[i].c)
  }

  /** The writings that come back: no character from U+0800 to U+0FFF is encoded, and an encoded
      U+0000 is not followed directly by an encoded character other than U+0000. */
  predicate Recoverable(ps: seq<Piece>) {
    && (forall i :: 0 <= i < |ps| && ps[i].Encoded? ==> !Unreadable(ps[i].c))
    && (forall i :: 0 < i < |ps| && ps[i - 1].Encoded? && ps[i].Encoded? && ps[i - 1].c == 0 ==> ps[i].c == 0)
  }

  // ------------------------------------------------------------------

  lemma HexDigitValue(v: nat, upper: bool)
    requires v < 16
    ensures HexValue(HexDigit(v, upper)) == v
  {
  }

  /** A written byte string is read as a run, up to the next unencoded character. */
  lemma {:induction false} ReadRendered(bytes: seq<Byte>, upper: bool, rest: seq<nat>)
    requires bytes != []
    ensures RenderBytes(bytes, upper) != [] && RenderBytes(bytes, upper)[0] == PERCENT
    ensures ReadRun(RenderBytes(bytes, upper) + rest) == Prepend(bytes, RunFrom(rest, 0))
  {
    var tail := RenderBytes(bytes[1..], upper) + rest;
    ReadOne(bytes, upper, rest);
    assert rest[0..] == rest && tail[0..] == tail;
    if |bytes| > 1 {
      ReadRendered(bytes[1..], upper, rest);
      PrependTwice([bytes[0]], bytes[1..], RunFrom(rest, 0));
      assert [bytes[0]] + bytes[1..] == bytes;
    } else {
      assert tail == rest && bytes == [bytes[0]];
    }
  }

  lemma ReadOne(bytes: seq<Byte>, upper: bool, rest: seq<nat>)
    requires bytes != []
    ensures ReadRun(RenderBytes(bytes, upper) + rest)
         == Prepend([bytes[0]], RunFrom(RenderBytes(bytes[1..], upper) + rest, 0))
  {
    ReadTriple(bytes[0], upper, RenderBytes(bytes[1..], upper), rest);
  }

  lemma ReadTriple(b: Byte, upper: bool, more: seq<nat>, rest: seq<nat>)
    ensures ReadRun([PERCENT, HexDigit(b / 16, upper), HexDigit(b % 16, upper)] + more + rest)
         == Prepend([b], RunFrom(more + rest, 0))
  {
    var h, l := HexDigit(b / 16, upper), HexDigit(b % 16, upper);
    HexDigitValue(b / 16, upper);
    HexDigitValue(b % 16, upper);
    Reassociate([PERCENT, h, l], more, rest);
    ReadDigits(h, l, more + rest);
  }

  lemma ReadDigits(h: nat, l: nat, tail: seq<nat>)
    requires HexValue(h) >= 0 && HexValue(l) >= 0
    ensures ReadRun([PERCENT, h, l] + tail) == Prepend([16 * HexValue(h) + HexValue(l)], RunFrom(tail, 0))
  {
    assert ([PERCENT, h, l] + tail)[3..] == tail == tail[0..];
  }

  lemma Reassociate(x: seq<nat>, y: seq<nat>, z: seq<nat>)
    ensures x + y + z == x + (y + z)
  {
  }

  lemma PrependTwice(a: seq<Byte>, b: seq<Byte>, run: Run)
    ensures Prepend(a, Prepend(b, run)) == Prepend(a + b, run)
  {
    if run.Run? {
      assert a + (b + run.bytes) == a + b + run.bytes;
    }
  }

  /** The number of encoded characters that start a writing. */
  function RunLength(ps: seq<Piece>): (n: nat)
    ensures n <= |ps|
    ensures forall i :: 0 <= i < n ==> ps[i].Encoded?
    ensures n < |ps| ==> ps[n].Literal?
  {
    if ps == [] || ps[0].Literal? then 0 else 1 + RunLength(ps[1..])
  }

  lemma {:induction false} RunIsRead(ps: seq<Piece>, n: nat)
    requires Valid(ps) && 0 < n == RunLength(ps)
    ensures forall c :: c in Content(ps[..n]) ==> IsScalar(c)
    ensures Render(ps) != [] && Render(ps)[0] == PERCENT
    ensures ReadRun(Render(ps)) == Run(EncodeAll(Content(ps[..n])), Render(ps[n..]))
  {
    var p, tail := ps[0], ps[1..];
    var bytes := Encode(p.c);
    ReadRendered(bytes, p.upper, Render(tail));
    assert Content(ps[..n])[1..] == Content(tail[..n - 1]);
    assert ps[n..] == tail[n - 1..];
    assert Render(tail)[0..] == Render(tail);
    if n > 1 {
      RunIsRead(tail, n - 1);
      assert RunFrom(Render(tail), 0) == ReadRun(Render(tail));
    } else {
      assert tail[0..] == tail;
      assert EncodeAll(Content(tail[..0])) == [];
      assert bytes + [] == bytes;
    }
  }

  lemma {:induction false} ReadableRun(ps: seq<Piece>)
    requires forall i :: 0 <= i < |ps| ==> ps[i].Encoded?
    ensures Readable(Content(ps)) <==> Recoverable(ps)
  {
    if ps != [] {
      ReadableRun(ps[1..]);
      assert Content(ps)[1..] == Content(ps[1..]);
      assert forall i :: 0 <= i < |ps| - 1 ==> ps[1..][i] == ps[i + 1];
    }
  }

  lemma RecoverableSplit(ps: seq<Piece>, n: nat)
    requires n <= |ps| && (n < |ps| ==> ps[n].Literal?)
    ensures Recoverable(ps) <==> Recoverable(ps[..n]) && Recoverable(ps[n..])
  {
    assert forall i :: 0 <= i < |ps| - n ==> ps[n..][i] == ps[n + i];
    if Recoverable(ps[..n]) && Recoverable(ps[n..]) {
      forall i | 0 <= i < |ps| && ps[i].Encoded? ensures !Unreadable(ps[i].c) {
        assert ps[i] == if i < n then ps[..n][i] else ps[n..][i - n];
      }
      forall i | 0 < i < |ps| && ps[i - 1].Encoded? && ps[i].Encoded? && ps[i - 1].c == 0 ensures ps[i].c == 0 {
        if i > n {
          assert ps[i] == ps[n..][i - n] && ps[i - 1] == ps[n..][i - n - 1];
        } else {
          assert i < n;
          assert ps[i] == ps[..n][i] && ps[i - 1] == ps[..n][i - 1];
        }
      }
    }
  }

  /** A run of encoded characters is decoded for itself. */
  lemma RunRendered(ps: seq<Piece>, n: nat)
    requires Valid(ps) && 0 < n == RunLength(ps)
    ensures forall c :: c in Content(ps[..n]) ==> IsScalar(c)
    ensures var cs := Content(ps[..n]); var (st, out) := Decoded(Render(ps[n..]));
      Decoded(Render(ps)) == (st, DecodeAll(EncodeAll(cs), |EncodeAll(cs)|) + out)
  {
    RunIsRead(ps, n);
  }

  lemma RunFirst(ps: seq<Piece>)
    requires Valid(ps) && ps != [] && ps[0].Encoded?
    requires var rest := ps[RunLength(ps)..];
      Decoded(Render(rest)).0 == Success && (Decoded(Render(rest)).1 == Content(rest) <==> Recoverable(rest))
    ensures Decoded(Render(ps)).0 == Success
    ensures Decoded(Render(ps)).1 == Content(ps) <==> Recoverable(ps)
  {
    var n := RunLength(ps);
    RunRendered(ps, n);
    var cs := Content(ps[..n]);
    var k := DecodeEncoded(cs);
    ReadableRun(ps[..n]);
    RecoverableSplit(ps, n);
    ContentSplit(ps, n);
    SameOrDiffer(DecodeAll(EncodeAll(cs), |EncodeAll(cs)|), cs, k, Decoded(Render(ps[n..])).1, Content(ps[n..]));
  }

  lemma LiteralDecoded(ps: seq<Piece>)
    requires Valid(ps) && ps != [] && ps[0].Literal?
    requires var rest := ps[1..];
      Decoded(Render(rest)).0 == Success && (Decoded(Render(rest)).1 == Content(rest) <==> Recoverable(rest))
    ensures Decoded(Render(ps)).0 == Success
    ensures Decoded(Render(ps)).1 == Content(ps) <==> Recoverable(ps)
  {
    LiteralRendered(ps);
    assert Content(ps) == [ps[0].c] + Content(ps[1..]);
    LiteralFirst(ps);
    var rest := Decoded(Render(ps[1..])).1;
    assert [ps[0].c] + rest == [ps[0].c] + Content(ps[1..]) ==> rest == Content(ps[1..]) by {
      assert ([ps[0].c] + rest)[1..] == rest && ([ps[0].c] + Content(ps[1..]))[1..] == Content(ps[1..]);
    }
  }

  lemma LiteralRendered(ps: seq<Piece>)
    requires Valid(ps) && ps != [] && ps[0].Literal?
    ensures var (st, out) := Decoded(Render(ps[1..])); Decoded(Render(ps)) == (st, [ps[0].c] + out)
  {
    assert Render(ps) == [ps[0].c] + Render(ps[1..]);
    assert Render(ps)[1..] == Render(ps[1..]);
  }

  /** Every writing is decoded without an error; the characters come back exactly when the
      writing is recoverable. */
  lemma {:induction false} DecodeRendered(ps: seq<Piece>)
    requires Valid(ps)
    ensures Decoded(Render(ps)).0 == Success
    ensures Decoded(Render(ps)).1 == Content(ps) <==> Recoverable(ps)
    decreases |ps|
  {
    if ps == [] {
    } else if ps[0].Literal? {
      DecodeRendered(ps[1..]);
      LiteralDecoded(ps);
    } else {
      DecodeRendered(ps[RunLength(ps)..]);
      RunFirst(ps);
    }
  }

  lemma ContentSplit(ps: seq<Piece>, n: nat)
    requires n <= |ps|
    ensures Content(ps) == Content(ps[..n]) + Content(ps[n..])
  {
  }

  lemma SameOrDiffer(a: seq<nat>, cs: seq<nat>, k: nat, b: seq<nat>, ds: seq<nat>)
    requires a == cs || Differ(a, cs, k)
    ensures a + b == cs + ds <==> a == cs && b == ds
  {
    assert k < |a| && k < |cs| ==> (a + b)[k] == a[k] && (cs + ds)[k] == cs[k];
    assert |a| == |cs| ==> (a + b)[|a|..] == b && (cs + ds)[|cs|..] == ds;
  }

  lemma LiteralFirst(ps: seq<Piece>)
    requires ps != [] && ps[0].Literal?
    ensures Recoverable(ps) <==> Recoverable(ps[1..])
  {
    if Recoverable(ps[1..]) {
      forall i | 0 <= i < |ps| && ps[i].Encoded? ensures !Unreadable(ps[i].c) {
        assert ps[i] == ps[1..][i - 1];
      }
      forall i | 0 < i < |ps| && ps[i - 1].Encoded? && ps[i].Encoded? && ps[i - 1].c == 0 ensures ps[i].c == 0 {
        assert ps[i] == ps[1..][i - 1] && ps[i - 1] == ps[1..][i - 2];
      }
    }
    assert forall i :: 0 <= i < |ps| - 1 ==> ps[1..][i] == ps[i + 1];
  }

  /** Two writings that do not come back: "%E0%A4%85" for U+0905, and "%00%41" for U+0000 and 'A'. */
  lemma LostCharacters()
    ensures Valid([Encoded(0x905, true)]) && Valid([Encoded(0, true), Encoded('A' as nat, true)])
    ensures Decoded(Render([Encoded(0x905, true)])).1 != [0x905]
    ensures Decoded(Render([Encoded(0, true), Encoded('A' as nat, true)])).1 != [0, 'A' as nat]
  {
    var ps, qs := [Encoded(0x905, true)], [Encoded(0, true), Encoded('A' as nat, true)];
    DecodeRendered(ps);
    DecodeRendered(qs);
    assert ps[0].Encoded? && Unreadable(ps[0].c);
    assert qs[0].Encoded? && qs[1].Encoded? && qs[0].c == 0 && qs[1].c != 0;
    assert Content(ps) == [0x905] && Content(qs) == [0, 'A' as nat];
  }
}
