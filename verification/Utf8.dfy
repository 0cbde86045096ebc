/** The UTF-8 decoder behind `LSPString::set_utf8`: src/main/io/charset.cpp and
    src/main/runtime/LSPString.cpp. */
module Utf8 {

  type Byte = n: nat | n < 256

  /** The replacement character, read in place of malformed bytes. */
  const REPLACEMENT: nat := 0xfffd

  // ------------------------------------------------------------------
  // The encoding of section 3 of RFC 3629.

  predicate IsScalar(c: nat) {
    c < 0xd800 || 0xe000 <= c < 0x11_0000
  }

  function Encode(c: nat): (r: seq<Byte>)
    requires IsScalar(c)
    ensures 1 <= |r| <= 4
  {
    if c < 0x80 then [c]
    else if c < 0x800 then [0xc0 + c / 0x40, Tail(c)]
    else if c < 0x1_0000 then [0xe0 + c / 0x1000, Tail(c / 0x40), Tail(c)]
    else [0xf0 + c / 0x4_0000, Tail(c / 0x1000), Tail(c / 0x40), Tail(c)]
  }

  function Tail(c: nat): Byte {
    0x80 + c % 0x40
  }

  function EncodeAll(cs: seq<nat>): (r: seq<Byte>)
    requires forall c :: c in cs ==> IsScalar(c)
    ensures |r| >= |cs|
  {
    if cs == [] then [] else Encode(cs[0]) + EncodeAll(cs[1..])
  }

  // ------------------------------------------------------------------
  // The decoder.

  /** What one call of the streaming reader does: the code point read, how far the source
      pointer moves and by how much the count of remaining bytes drops. */
  datatype Reading = Reading(code: nat, advance: nat, spent: nat)

  /** The number of bytes that follow a lead byte, and the bits the lead byte carries. */
  function LeadTails(b: Byte): nat {
    if 0xc0 <= b < 0xe0 then if b % 0x20 >= 2 then 1 else 0
    else if 0xe0 <= b < 0xf0 then if b % 0x10 != 0 then 2 else 0
    else if 0xf0 <= b < 0xf8 then 3
    else 0
  }

  function LeadBits(b: Byte): nat {
    if 0xc0 <= b < 0xe0 then b % 0x20 else if 0xe0 <= b < 0xf0 then b % 0x10 else b % 8
  }

  /** Reads the next code point of `s`, of which `n` bytes are counted as remaining.
      A zero byte is reported without moving past it. */
  function Read(s: seq<Byte>, n: nat): (r: Reading)
    requires 0 < n <= |s|
    ensures 0 < r.spent <= n && r.advance <= r.spent
  {
    var b := s[0];
    if b < 0x80 then Reading(b, if b == 0 then 0 else 1, 1)
    else
      var tails := LeadTails(b);
      if tails == 0 then Reading(REPLACEMENT, 1, 1)
      else if tails >= n then Reading(REPLACEMENT, 0, n)
      else ReadTails(s, 1, tails, tails, LeadBits(b))
  }

  /** Reads the `left` remaining tail bytes from offset `at`. */
  function ReadTails(s: seq<Byte>, at: nat, tails: nat, left: nat, code: nat): (r: Reading)
    requires 1 <= at && at + left == 1 + tails <= |s|
    ensures 0 < r.advance == r.spent <= 1 + tails
    decreases left
  {
    if left == 0 then
      if tails == 3 && code < 0x1_0000 then Reading(REPLACEMENT, at, at)
      else if 0xd800 <= code < 0xe000 then Reading(REPLACEMENT, at, at)
      else Reading(code, at, at)
    else if s[at] < 0x80 || s[at] >= 0xc0 then
      var stop := if s[at] == 0 then at + 1 else at;
      Reading(REPLACEMENT, stop, stop)
    else ReadTails(s, at + 1, tails, left - 1, code * 0x40 + s[at] % 0x40)
  }

  /** The text that `set_utf8` makes of `n` bytes. */
  function DecodeAll(s: seq<Byte>, n: nat): seq<nat>
    requires n <= |s|
    decreases n
  {
    if n == 0 then []
    else var r := Read(s, n); [r.code] + DecodeAll(s[r.advance..], n - r.spent)
  }

  // ------------------------------------------------------------------
  // Which texts come back.

  /** Three bytes led by 0xe0 are refused, although they encode U+0800 to U+0FFF. */
  predicate Unreadable(c: nat) {
    0x800 <= c < 0x1000
  }

  lemma Shift(c: nat)
    ensures c / 0x40 * 0x40 + Tail(c) % 0x40 == c
    ensures 0x80 <= Tail(c) < 0xc0
    ensures c / 0x1000 == c / 0x40 / 0x40 && c / 0x4_0000 == c / 0x1000 / 0x40
  {
  }

  lemma ReadTwo(c: nat, s: seq<Byte>)
    requires 0x80 <= c < 0x800 && |s| >= 2 && s[0] == 0xc0 + c / 0x40 && s[1] == Tail(c)
    ensures Read(s, |s|) == Reading(c, 2, 2)
  {
    Shift(c);
    assert LeadBits(s[0]) == c / 0x40;
    assert ReadTails(s, 2, 1, 0, c) == Reading(c, 2, 2);
  }

  lemma ReadThree(c: nat, s: seq<Byte>)
    requires 0x1000 <= c < 0x1_0000 && IsScalar(c)
    requires |s| >= 3 && s[0] == 0xe0 + c / 0x1000 && s[1] == Tail(c / 0x40) && s[2] == Tail(c)
    ensures Read(s, |s|) == Reading(c, 3, 3)
  {
    Shift(c);
    Shift(c / 0x40);
    assert LeadTails(s[0]) == 2 && LeadBits(s[0]) == c / 0x1000;
    assert ReadTails(s, 3, 2, 0, c) == Reading(c, 3, 3);
    assert ReadTails(s, 2, 2, 1, c / 0x40) == Reading(c, 3, 3);
  }

  lemma ReadFour(c: nat, s: seq<Byte>)
    requires 0x1_0000 <= c < 0x11_0000
    requires |s| >= 4 && s[0] == 0xf0 + c / 0x4_0000 && s[1] == Tail(c / 0x1000)
    requires s[2] == Tail(c / 0x40) && s[3] == Tail(c)
    ensures Read(s, |s|) == Reading(c, 4, 4)
  {
    Shift(c);
    Shift(c / 0x40);
    Shift(c / 0x1000);
    assert LeadTails(s[0]) == 3 && LeadBits(s[0]) == c / 0x4_0000;
    assert ReadTails(s, 4, 3, 0, c) == Reading(c, 4, 4);
    assert ReadTails(s, 3, 3, 1, c / 0x40) == Reading(c, 4, 4);
    assert ReadTails(s, 2, 3, 2, c / 0x1000) == Reading(c, 4, 4);
  }

  lemma ReadEncoded(c: nat, rest: seq<Byte>)
    requires IsScalar(c) && c != 0 && !Unreadable(c)
    ensures Read(Encode(c) + rest, |Encode(c) + rest|) == Reading(c, |Encode(c)|, |Encode(c)|)
  {
    var s := Encode(c) + rest;
    if c >= 0x1_0000 {
      ReadFour(c, s);
    } else if c >= 0x1000 {
      ReadThree(c, s);
    } else if c >= 0x80 {
      ReadTwo(c, s);
    }
  }

  /** A zero byte stops the pointer, so every remaining byte reads as zero. */
  lemma {:induction false} ZerosAfterZero(s: seq<Byte>, n: nat)
    requires 0 < n <= |s| && s[0] == 0
    ensures |DecodeAll(s, n)| == n && forall i :: 0 <= i < n ==> DecodeAll(s, n)[i] == 0
    decreases n
  {
    assert Read(s, n) == Reading(0, 0, 1);
    assert s[0..] == s;
    if n > 1 {
      ZerosAfterZero(s, n - 1);
    }
  }

  lemma UnreadableLead(c: nat, rest: seq<Byte>)
    requires Unreadable(c)
    ensures Read(Encode(c) + rest, |Encode(c) + rest|) == Reading(REPLACEMENT, 1, 1)
  {
    assert Encode(c)[0] == 0xe0;
  }

  /** The texts that survive encoding and decoding: nothing but zeros after a zero, and no
      character that is encoded with the lead byte 0xe0. */
  predicate Readable(cs: seq<nat>) {
    cs != [] ==>
      && !Unreadable(cs[0])
      && Readable(cs[1..])
      && (cs[0] == 0 && |cs| > 1 ==> cs[1] == 0)
  }

  lemma {:induction false} ZerosReadable(cs: seq<nat>, i: nat)
    requires Readable(cs) && i < |cs| && cs[0] == 0
    ensures cs[i] == 0
  {
    if i > 0 {
      ZerosReadable(cs[1..], i - 1);
    }
  }

  lemma {:induction false} ZerosEncoded(cs: seq<nat>)
    requires forall i :: 0 <= i < |cs| ==> cs[i] == 0
    ensures |EncodeAll(cs)| == |cs|
  {
    if cs != [] {
      ZerosEncoded(cs[1..]);
    }
  }

  ghost predicate Differ(a: seq<nat>, b: seq<nat>, k: nat) {
    k < |a| && k < |b| && a[k] != b[k]
  }

  /** What decoding gives of an encoded text: the text if it is readable, and otherwise another
      character at position `k`. */
  ghost predicate Comes(cs: seq<nat>, k: nat)
    requires forall c :: c in cs ==> IsScalar(c)
  {
    var decoded := DecodeAll(EncodeAll(cs), |EncodeAll(cs)|);
    if Readable(cs) then decoded == cs else Differ(decoded, cs, k)
  }

  /** Zeros, at least as many as the text has characters, are what it decodes to if it starts
      with a zero; they are the text exactly if it is readable. */
  lemma ZeroFirst(cs: seq<nat>, zeros: seq<nat>) returns (k: nat)
    requires cs != [] && cs[0] == 0 && |cs| <= |zeros| && forall i :: 0 <= i < |zeros| ==> zeros[i] == 0
    requires (forall i :: 0 <= i < |cs| ==> cs[i] == 0) ==> |zeros| == |cs|
    ensures if Readable(cs) then zeros == cs else Differ(zeros, cs, k)
  {
    k := 0;
    if Readable(cs) {
      forall i | 0 <= i < |cs| ensures cs[i] == 0 {
        ZerosReadable(cs, i);
      }
    } else {
      k := FirstNonZero(cs);
    }
  }

  lemma ZerosDecoded(cs: seq<nat>)
    requires cs != [] && cs[0] == 0 && forall c :: c in cs ==> IsScalar(c)
    ensures var zeros := DecodeAll(EncodeAll(cs), |EncodeAll(cs)|);
      && |cs| <= |zeros| && (forall i :: 0 <= i < |zeros| ==> zeros[i] == 0)
      && ((forall i :: 0 <= i < |cs| ==> cs[i] == 0) ==> |zeros| == |cs|)
  {
    ZerosAfterZero(EncodeAll(cs), |EncodeAll(cs)|);
    if forall i :: 0 <= i < |cs| ==> cs[i] == 0 {
      ZerosEncoded(cs);
    }
  }

  lemma FirstDecoded(c: nat, tail: seq<Byte>)
    requires IsScalar(c) && c != 0 && !Unreadable(c)
    ensures DecodeAll(Encode(c) + tail, |Encode(c) + tail|) == [c] + DecodeAll(tail, |tail|)
  {
    ReadEncoded(c, tail);
    assert (Encode(c) + tail)[|Encode(c)|..] == tail;
  }

  lemma DifferBehind(c: nat, a: seq<nat>, b: seq<nat>, k: nat)
    ensures Differ(a, b, k) ==> Differ([c] + a, [c] + b, k + 1)
  {
  }

  lemma ReadableFirst(cs: seq<nat>, k: nat)
    requires cs != [] && cs[0] != 0 && !Unreadable(cs[0]) && forall c :: c in cs ==> IsScalar(c)
    requires Comes(cs[1..], k)
    ensures Comes(cs, if Readable(cs) then k else k + 1)
  {
    FirstDecoded(cs[0], EncodeAll(cs[1..]));
    assert cs == [cs[0]] + cs[1..];
    DifferBehind(cs[0], DecodeAll(EncodeAll(cs[1..]), |EncodeAll(cs[1..])|), cs[1..], k);
  }

  /** Decoding the encoded text gives the text back if it is readable, and otherwise another
      character at some position of the text. */
  lemma {:induction false} DecodeEncoded(cs: seq<nat>) returns (k: nat)
    requires forall c :: c in cs ==> IsScalar(c)
    ensures Readable(cs) ==> DecodeAll(EncodeAll(cs), |EncodeAll(cs)|) == cs
    ensures !Readable(cs) ==> Differ(DecodeAll(EncodeAll(cs), |EncodeAll(cs)|), cs, k)
    ensures Comes(cs, k)
  {
    k := 0;
    if cs != [] {
      if cs[0] == 0 {
        ZerosDecoded(cs);
        k := ZeroFirst(cs, DecodeAll(EncodeAll(cs), |EncodeAll(cs)|));
      } else if Unreadable(cs[0]) {
        UnreadableLead(cs[0], EncodeAll(cs[1..]));
      } else {
        k := DecodeEncoded(cs[1..]);
        ReadableFirst(cs, k);
        k := if Readable(cs) then k else k + 1;
      }
    }
  }

  lemma {:induction false} FirstNonZero(cs: seq<nat>) returns (k: nat)
    requires cs != [] && cs[0] == 0 && !Readable(cs)
    ensures k < |cs| && cs[k] != 0
  {
    if |cs| > 1 && cs[1] != 0 {
      k := 1;
    } else {
      k := FirstNonZero(cs[1..]);
      k := k + 1;
    }
  }
}
