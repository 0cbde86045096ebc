/** Percent-decoding: src/main/fmt/url.cpp. */
module Url {
  import opened Basics
  import opened Utf8

  /** Characters are code points. */
  const PERCENT: nat := '%' as nat

  class Text {
    var chars: seq<nat>
  }

  function HexValue(c: nat): (r: int)
    ensures -1 <= r < 16
  {
    if '0' as nat <= c <= '9' as nat then c - '0' as nat
    else if 'a' as nat <= c <= 'f' as nat then c - 'a' as nat + 10
    else if 'A' as nat <= c <= 'F' as nat then c - 'A' as nat + 10
    else -1
  }

  /** `LSPString::char_at`: zero past the end. */
  function CharAt(s: seq<nat>, i: nat): nat {
    if i < |s| then s[i] else 0
  }

  // ------------------------------------------------------------------
  // What decoding a whole string means.

  datatype Run = Malformed | Run(bytes: seq<Byte>, rest: seq<nat>)

  /** A maximal run of percent-encoded bytes, which starts `s`. */
  function ReadRun(s: seq<nat>): (r: Run)
    requires s != [] && s[0] == PERCENT
    ensures r.Run? ==> r.bytes != [] && |r.rest| + 3 * |r.bytes| == |s|
    ensures r.Run? ==> r.rest == [] || r.rest[0] != PERCENT
  {
    if |s| < 3 || HexValue(s[1]) < 0 || HexValue(s[2]) < 0 then Malformed
    else
      var b: Byte := 16 * HexValue(s[1]) + HexValue(s[2]);
      if |s| > 3 && s[3] == PERCENT then
        match ReadRun(s[3..])
        case Malformed => Malformed
        case Run(bytes, rest) => Run([b] + bytes, rest)
      else Run([b], s[3..])
  }

  /** The status of decoding `s` and the characters appended by then. */
  function Decoded(s: seq<nat>): (Status, seq<nat>)
    decreases |s|
  {
    if s == [] then (Success, [])
    else if s[0] == PERCENT then
      match ReadRun(s)
      case Malformed => (Corrupted, [])
      case Run(bytes, rest) =>
        var (st, out) := Decoded(rest);
        (st, DecodeAll(bytes, |bytes|) + out)
    else
      var (st, out) := Decoded(s[1..]);
      (st, [s[0]] + out)
  }

  // ------------------------------------------------------------------
  // The code.

  /** Decodes `src` to the end of `dst`. */
  method Decode(dst: Text, src: seq<nat>) returns (res: Status)
    modifies dst
    ensures res == Decoded(src).0
    ensures dst.chars == old(dst.chars) + Decoded(src).1
  {
    var first, last := 0, |src|;
    var buf: array<Byte> := new Byte[0];
    ghost var whole := DecodedFrom(src, 0, dst.chars);
    assert src[0..] == src;
    while first < last
      invariant 0 <= first <= last && fresh(buf)
      invariant DecodedFrom(src, first, dst.chars) == whole
    {
      var c := src[first];
      if c == PERCENT {
        ghost var start := first;
        var ok, blen;
        ok, first, blen, buf := ReadBytes(src, first, last, buf);
        if !ok {
          MalformedDecoded(src, start, dst.chars);
          return Corrupted;
        }
        RunDecoded(src, start, dst.chars, buf[..blen], first);
        dst.chars := dst.chars + DecodeAll(buf[..blen], blen);
      } else {
        CharDecoded(src, first, dst.chars);
        dst.chars := dst.chars + [c];
        first := first + 1;
      }
    }
    assert dst.chars + [] == dst.chars;
    return Success;
  }

  /** The status and the text, once `text` is decoded and the source is left from `i` on. */
  function DecodedFrom(src: seq<nat>, i: nat, text: seq<nat>): (Status, seq<nat>)
    requires i <= |src|
  {
    var (st, out) := Decoded(src[i..]);
    (st, text + out)
  }

  lemma CharDecoded(src: seq<nat>, i: nat, text: seq<nat>)
    requires i < |src| && src[i] != PERCENT
    ensures DecodedFrom(src, i, text) == DecodedFrom(src, i + 1, text + [src[i]])
  {
    assert src[i..][1..] == src[i + 1..];
    var out := Decoded(src[i + 1..]).1;
    assert text + ([src[i]] + out) == text + [src[i]] + out;
  }

  lemma RunDecoded(src: seq<nat>, i: nat, text: seq<nat>, bytes: seq<Byte>, next: nat)
    requires i < |src| && src[i] == PERCENT && next <= |src| && ReadRun(src[i..]) == Run(bytes, src[next..])
    ensures DecodedFrom(src, i, text) == DecodedFrom(src, next, text + DecodeAll(bytes, |bytes|))
  {
    var more, out := DecodeAll(bytes, |bytes|), Decoded(src[next..]).1;
    assert text + (more + out) == text + more + out;
  }

  lemma MalformedDecoded(src: seq<nat>, i: nat, text: seq<nat>)
    requires i < |src| && src[i] == PERCENT && ReadRun(src[i..]).Malformed?
    ensures DecodedFrom(src, i, text) == (Corrupted, text)
  {
    assert text + [] == text;
  }

  /** The run of encoded bytes that goes on at `i`, if one does. */
  function RunFrom(src: seq<nat>, i: nat): Run
    requires i <= |src|
  {
    if CharAt(src, i) == PERCENT then ReadRun(src[i..]) else Run([], src[i..])
  }

  function Prepend(bytes: seq<Byte>, run: Run): Run {
    match run
    case Malformed => Malformed
    case Run(more, rest) => Run(bytes + more, rest)
  }

  lemma PrependNothing(run: Run)
    ensures Prepend([], run) == run
  {
    assert run.Run? ==> [] + run.bytes == run.bytes;
  }

  lemma RunEnds(bytes: seq<Byte>, src: seq<nat>, i: nat)
    requires i <= |src| && CharAt(src, i) != PERCENT
    ensures Prepend(bytes, RunFrom(src, i)) == Run(bytes, src[i..])
  {
    assert bytes + [] == bytes;
  }

  /** The byte that the escape at `i` stands for, or a negative number. */
  function ByteAt(src: seq<nat>, i: nat): (r: int)
    requires i < |src|
    ensures r < 256
  {
    if |src| - i < 3 || HexValue(src[i + 1]) < 0 || HexValue(src[i + 2]) < 0 then -1
    else 16 * HexValue(src[i + 1]) + HexValue(src[i + 2])
  }

  method ReadByte(src: seq<nat>, first: nat) returns (code: int)
    requires first < |src|
    ensures code == ByteAt(src, first)
  {
    if |src| - first < 3 {
      return -1;
    }
    var hi := HexValue(src[first + 1]);
    if hi < 0 {
      return -1;
    }
    var lo := HexValue(src[first + 2]);
    if lo < 0 {
      return -1;
    }
    return 16 * hi + lo;
  }

  lemma RunStep(total: Run, bytes: seq<Byte>, src: seq<nat>, i: nat)
    requires i < |src| && src[i] == PERCENT
    requires total == Prepend(bytes, RunFrom(src, i))
    ensures if ByteAt(src, i) < 0 then total == Malformed
            else i + 3 <= |src| && total == Prepend(bytes + [ByteAt(src, i)], RunFrom(src, i + 3))
  {
    if ByteAt(src, i) >= 0 {
      assert src[i..][3..] == src[i + 3..];
      var b: Byte := ByteAt(src, i);
      var next := RunFrom(src, i + 3);
      assert next.Run? ==> bytes + ([b] + next.bytes) == bytes + [b] + next.bytes;
    }
  }

  /** The inner loop: fills the buffer with a run of encoded bytes. */
  method ReadBytes(src: seq<nat>, first0: nat, last: nat, buf0: array<Byte>)
    returns (ok: bool, first: nat, blen: nat, buf: array<Byte>)
    requires first0 < last == |src| && src[first0] == PERCENT
    modifies buf0
    ensures fresh(buf) || buf == buf0
    ensures ok <==> ReadRun(src[first0..]).Run?
    ensures ok ==> first <= last && blen <= buf.Length
    ensures ok ==> ReadRun(src[first0..]) == Run(buf[..blen], src[first..])
  {
    first, blen, buf := first0, 0, buf0;
    var more := true;
    ghost var total, bytes: seq<Byte> := ReadRun(src[first0..]), [];
    PrependNothing(total);
    while more
      invariant first0 <= first <= last && blen <= buf.Length
      invariant fresh(buf) || buf == buf0
      invariant buf[..blen] == bytes
      invariant more <==> CharAt(src, first) == PERCENT
      invariant total == Prepend(bytes, RunFrom(src, first))
      decreases last - first
    {
      RunStep(total, bytes, src, first);
      var code := ReadByte(src, first);
      if code < 0 {
        return false, first, blen, buf;
      }
      buf := Store(buf, blen, code);
      bytes := bytes + [code];
      blen := blen + 1;
      first := first + 3;
      more := CharAt(src, first) == PERCENT;
    }
    RunEnds(bytes, src, first);
    return true, first, blen, buf;
  }

  /** Stores a byte behind the first `blen`; a full buffer is reallocated larger first. */
  method Store(buf0: array<Byte>, blen: nat, b: Byte) returns (buf: array<Byte>)
    requires blen <= buf0.Length
    modifies buf0
    ensures fresh(buf) || buf == buf0
    ensures blen < buf.Length && buf[..blen + 1] == old(buf0[..blen]) + [b]
    ensures buf.Length == if blen < buf0.Length then buf0.Length else buf0.Length + (blen + 0x10) / 0x10 * 0x10
  {
    buf := buf0;
    var bcap := buf.Length;
    if blen >= bcap {
      bcap := bcap + (blen + 0x10) / 0x10 * 0x10;
      buf := new Byte[bcap];
      forall i | 0 <= i < blen {
        buf[i] := buf0[i];
      }
      assert buf[..blen] == old(buf0[..blen]);
    }
    buf[blen] := b;
  }
}
