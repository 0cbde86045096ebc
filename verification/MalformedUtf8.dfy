/** What the decoder of UTF-8 makes of every sequence of bytes, well-formed or not: `read_utf8_streaming`
    of src/main/io/charset.cpp. */
module MalformedUtf8 {
  import opened Basics
  import opened Utf8
  import opened Url
  import opened UrlRoundTrip

  predicate IsTail(b: Byte) {
    0x80 <= b < 0xc0
  }

  /** The number of tail bytes that a lead byte asks for. */
  function TailsOf(lead: Byte): nat {
    if 0xc2 <= lead < 0xe0 then 1
    else if 0xe1 <= lead < 0xf0 then 2
    else if 0xf0 <= lead < 0xf8 then 3
    else 0
  }

  lemma LeadsAgree(b: Byte)
    ensures b >= 0x80 ==> LeadTails(b) == TailsOf(b)
    ensures 0xc2 <= b < 0xe0 ==> LeadBits(b) == b - 0xc0
    ensures 0xe1 <= b < 0xf0 ==> LeadBits(b) == b - 0xe0
    ensures 0xf0 <= b < 0xf8 ==> LeadBits(b) == b - 0xf0
  {
  }

  /** A byte that is no character and leads none is replaced alone: a tail byte, the leads of
      needlessly long pairs, 0xe0, and all bytes from 0xf8 on. */
  lemma StrayByte(s: seq<Byte>, n: nat)
    requires 0 < n <= |s| && s[0] >= 0x80 && TailsOf(s[0]) == 0
    ensures Read(s, n) == Reading(0xfffd, 1, 1)
  {
    LeadsAgree(s[0]);
  }

  /** A lead byte without room for its tails is replaced together with all that is left. */
  lemma CutShort(s: seq<Byte>, n: nat)
    requires 0 < n <= |s| && n <= TailsOf(s[0])
    ensures Read(s, n) == Reading(0xfffd, 0, n)
    ensures DecodeAll(s, n) == [0xfffd]
  {
    LeadsAgree(s[0]);
    assert s[0..] == s;
  }

  lemma {:induction false} TailsBroken(s: seq<Byte>, at: nat, tails: nat, code: nat, j: nat)
    requires 1 <= at <= j <= tails < |s| && !IsTail(s[j])
    requires forall i :: at <= i < j ==> IsTail(s[i])
    ensures var stop := if s[j] == 0 then j + 1 else j;
      ReadTails(s, at, tails, 1 + tails - at, code) == Reading(0xfffd, stop, stop)
    decreases j - at
  {
    if at < j {
      TailsBroken(s, at + 1, tails, code * 0x40 + s[at] % 0x40, j);
    }
  }

  /** A lead byte is replaced together with the tails behind it, if there are too few: the reader
      goes on at the first byte that is no tail, but swallows a zero there. */
  lemma BrokenSequence(s: seq<Byte>, n: nat, j: nat)
    requires 0 < n <= |s| && 0 < j <= TailsOf(s[0]) < n && !IsTail(s[j])
    requires forall i :: 1 <= i < j ==> IsTail(s[i])
    ensures var stop := if s[j] == 0 then j + 1 else j; Read(s, n) == Reading(0xfffd, stop, stop)
  {
    LeadsAgree(s[0]);
    TailsBroken(s, 1, TailsOf(s[0]), LeadBits(s[0]), j);
  }

  /** A byte without the bits that tell its kind. */
  function Payload(b: Byte, kind: int): int {
    var n: int := b;
    n - kind
  }

  /** The number that a lead byte and its tails encode. */
  function CodeOf(s: seq<Byte>): int
    requires s != [] && TailsOf(s[0]) > 0 && |s| > TailsOf(s[0])
  {
    match TailsOf(s[0])
    case 1 => 0x40 * Payload(s[0], 0xc0) + Payload(s[1], 0x80)
    case 2 => 0x1000 * Payload(s[0], 0xe0) + 0x40 * Payload(s[1], 0x80) + Payload(s[2], 0x80)
    case _ =>
      0x4_0000 * Payload(s[0], 0xf0) + 0x1000 * Payload(s[1], 0x80) + 0x40 * Payload(s[2], 0x80) + Payload(s[3], 0x80)
  }

  /** A sequence with all its tails is one character, which is replaced if it is a surrogate or if
      four bytes are more than it needs. Nothing checks that it is below 0x11_0000. */
  lemma WholeSequence(s: seq<Byte>, n: nat)
    requires 0 < n <= |s| && 0 < TailsOf(s[0]) < n
    requires forall i :: 1 <= i <= TailsOf(s[0]) ==> IsTail(s[i])
    ensures CodeOf(s) >= 0
    ensures var c, size := CodeOf(s), 1 + TailsOf(s[0]);
      Read(s, n)
      == Reading(if 0xd800 <= c < 0xe000 || (size == 4 && c < 0x1_0000) then 0xfffd else c, size, size)
  {
    LeadsAgree(s[0]);
    var k := TailsOf(s[0]);
    TailPayload(s[1]);
    var c1 := 0x40 * LeadBits(s[0]) + Payload(s[1], 0x80);
    assert ReadTails(s, 1, k, k, LeadBits(s[0])) == ReadTails(s, 2, k, k - 1, c1);
    if k > 1 {
      TailPayload(s[2]);
      var c2 := 0x40 * c1 + Payload(s[2], 0x80);
      assert ReadTails(s, 2, k, k - 1, c1) == ReadTails(s, 3, k, k - 2, c2);
      if k > 2 {
        TailPayload(s[3]);
        assert ReadTails(s, 3, k, k - 2, c2) == ReadTails(s, 4, k, k - 3, 0x40 * c2 + Payload(s[3], 0x80));
      }
    }
  }

  lemma TailPayload(b: Byte)
    requires IsTail(b)
    ensures Payload(b, 0x80) == b % 0x40 >= 0
  {
  }

  /** A byte string in percent encoding is decoded to one replacement character if it is a single byte
      that is no character, as in "%FF". */
  lemma StrayEscape(b: Byte, upper: bool)
    requires b >= 0x80
    ensures Decoded(RenderBytes([b], upper)) == (Success, [0xfffd])
  {
    ReadRendered([b], upper, []);
    var t := RenderBytes([b], upper);
    assert t + [] == t;
    assert RunFrom([], 0) == Run([], []) && [b] + [] == [b];
    assert ReadRun(t) == Run([b], []);
    if TailsOf(b) == 0 {
      StrayByte([b], 1);
      assert DecodeAll([b], 1) == [0xfffd] + DecodeAll([b][1..], 0);
    } else {
      CutShort([b], 1);
    }
    assert Decoded([]) == (Success, []) && DecodeAll([b], 1) + [] == [0xfffd];
  }
}
