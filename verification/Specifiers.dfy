/** Format specifiers: `read_specifier` of src/main/expr/format.cpp, behind the reading of the buffer. */
module Specifiers {
  import opened Basics
  import opened Names
  import opened Numerals
  import opened Lexing

  datatype Align = NoAlign | Left | Right | Middle | FromLeft | FromRight | ToLeft | ToRight

  /** The fields of a specifier; a field with a flag of its own is optional here. */
  datatype Fields = Fields(
    name: Option<Name>, index: nat, indexed: bool,
    lpad: Option<char>, rpad: Option<char>, align: Align,
    typed: bool, sign: bool, width: Option<nat>, frac: Option<nat>, kind: Option<char>,
    xwidth: Option<nat>)

  function Initial(index: nat): Fields {
    Fields(None, index, false, None, None, NoAlign, false, false, None, None, None, None)
  }

  // ------------------------------------------------------------------
  // Parsing a specifier, as a function of its text.

  /** The fields and the offset behind one modifier. */
  datatype Parsed = Next(f: Fields, i: nat) | Malformed

  /** One more digit of a number, in the arithmetic of `size_t`. */
  function WithDigit(n: Option<nat>, c: char): Option<nat>
    requires IsDigit(c)
  {
    Some(((if n.Some? then n.value else 0) * 10 + (c as int - '0' as int)) % TWO_64)
  }

  function Number(b: string, i: nat, n: Option<nat>): (r: (Option<nat>, nat))
    requires i <= |b|
    ensures i <= r.1 <= |b|
    decreases |b| - i
  {
    if i < |b| && IsDigit(b[i]) then Number(b, i + 1, WithDigit(n, b[i])) else (n, i)
  }

  function NameAt(b: string, i: nat, f: Fields): (r: Parsed)
    requires i <= |b|
    ensures r.Next? ==> i <= r.i <= |b|
  {
    if f.name.Some? || f.indexed || i == |b| || !IsIdentifierFirst(b[i]) then Malformed
    else
      var next := SkipIdentifier(b, i + 1);
      IdentifierNulFree(b, i, next);
      Next(f.(name := Some(b[i..next])), next)
  }

  lemma IdentifierNulFree(b: string, i: nat, next: nat)
    requires i < next <= |b| && IsIdentifierFirst(b[i])
    requires forall k :: i + 1 <= k < next ==> IsIdentifierNext(b[k])
    ensures NulFree(b[i..next])
  {
    forall k | 0 <= k < next - i ensures b[i..next][k] != '\0' {
      assert b[i..next][k] == b[i + k];
    }
  }

  function IndexAt(b: string, i: nat, f: Fields): (r: Parsed)
    requires i <= |b|
    ensures r.Next? ==> i <= r.i <= |b|
  {
    var (n, j) := Number(b, i, None);
    if f.name.Some? || f.indexed || n.None? || !CharIs(b, j, ']') then Malformed
    else Next(f.(index := n.value, indexed := true), j + 1)
  }

  function PadAt(b: string, i: nat, f: Fields, left: bool): (r: Parsed)
    requires i <= |b|
    ensures r.Next? ==> i <= r.i <= |b|
  {
    if i == |b| || (if left then f.lpad.Some? else f.rpad.Some?) then Malformed
    else Next(if left then f.(lpad := Some(b[i])) else f.(rpad := Some(b[i])), i + 1)
  }

  /** The alignment that starts with `c`, and whether it takes the next character as well. */
  function AlignOf(c: char, b: string, i: nat): (Align, bool) {
    if c == '>' then if CharIs(b, i, '|') then (FromLeft, true) else (Right, false)
    else if c == '<' then if CharIs(b, i, '|') then (ToLeft, true) else (Left, false)
    else if CharIs(b, i, '<') then (FromRight, true)
    else if CharIs(b, i, '>') then (ToRight, true)
    else (Middle, false)
  }

  function AlignAt(c: char, b: string, i: nat, f: Fields): (r: Parsed)
    requires i <= |b|
    ensures r.Next? ==> i <= r.i <= |b|
  {
    var (a, two) := AlignOf(c, b, i);
    if f.align != NoAlign then Malformed else Next(f.(align := a), if two then i + 1 else i)
  }

  /** The extra width may be given in several modifiers: its digits are collected. */
  function ExtraAt(b: string, i: nat, f: Fields): (r: Parsed)
    requires i <= |b|
    ensures r.Next? ==> i <= r.i <= |b|
  {
    var (n, j) := Number(b, i, f.xwidth);
    if n.None? then Malformed else Next(f.(xwidth := n), j)
  }

  /** The types of one letter. */
  predicate IsPlainKind(c: char) {
    || c == 'i' || c == 'd' || c == 'u' || c == 'b' || c == 'o' || c == 'x' || c == 'X'
    || c == 'f' || c == 'F' || c == 'e' || c == 'E' || c == 's' || c == 'S'
  }

  /** The letters of the boolean and the text types. */
  predicate IsPairedKind(c: char) {
    c == 'l' || c == 'L' || c == 't' || c == 'T'
  }

  /** A letter of a boolean or a text type, which a second letter of its pair may follow. */
  function PairedKind(c: char, b: string, i: nat): (char, bool) {
    var (low, high) := if c == 'l' || c == 'L' then ('l', 'L') else ('t', 'T');
    if CharIs(b, i, low) then (if c == low then low else if low == 'l' then 'Z' else 'Y', true)
    else if CharIs(b, i, high) then (if c == high then high else if low == 'l' then 'z' else 'y', true)
    else (c, false)
  }

  function KindAt(b: string, i: nat, f: Fields): (r: Parsed)
    requires i <= |b|
    ensures r.Next? ==> i <= r.i <= |b|
  {
    if i == |b| then Malformed
    else if IsPlainKind(b[i]) then Next(f.(kind := Some(b[i])), i + 1)
    else if IsPairedKind(b[i]) then
      var (k, two) := PairedKind(b[i], b, i + 1);
      Next(f.(kind := Some(k)), if two then i + 2 else i + 1)
    else Next(f, i)
  }

  function FractionAt(b: string, i: nat, f: Fields): (r: Parsed)
    requires i <= |b|
    ensures r.Next? ==> i <= r.i <= |b|
  {
    if !CharIs(b, i, '.') then KindAt(b, i, f)
    else
      var (n, j) := Number(b, i + 1, f.frac);
      if n.None? then Malformed else KindAt(b, j, f.(frac := n))
  }

  function TypeAt(b: string, i: nat, f: Fields): (r: Parsed)
    requires i <= |b|
    ensures r.Next? ==> i <= r.i <= |b|
  {
    if f.typed then Malformed
    else
      var plus := CharIs(b, i, '+');
      var (n, j) := Number(b, if plus then i + 1 else i, f.width);
      FractionAt(b, j, f.(typed := true, sign := f.sign || plus, width := n))
  }

  function ModifierAt(b: string, i: nat, f: Fields): (r: Parsed)
    requires i < |b|
    ensures r.Next? ==> i < r.i <= |b|
  {
    match b[i]
    case '@' => NameAt(b, i + 1, f)
    case '[' => IndexAt(b, i + 1, f)
    case '^' => PadAt(b, i + 1, f, true)
    case '$' => PadAt(b, i + 1, f, false)
    case '>' => AlignAt('>', b, i + 1, f)
    case '<' => AlignAt('<', b, i + 1, f)
    case '|' => AlignAt('|', b, i + 1, f)
    case ':' => ExtraAt(b, i + 1, f)
    case '%' => TypeAt(b, i + 1, f)
    case _ => Malformed
  }

  /** A function that reads one modifier. */
  type Stepper = (string, nat, Fields) -> Parsed

  ghost predicate Progresses(step: Stepper) {
    forall b: string, i: nat, f: Fields {:trigger step(b, i, f)} ::
      i < |b| && step(b, i, f).Next? ==> i < step(b, i, f).i <= |b|
  }

  function ParseWith(step: Stepper, b: string, i: nat, f: Fields): Option<Fields>
    requires Progresses(step) && i <= |b|
    decreases |b| - i
  {
    if i == |b| then Some(f)
    else
      match step(b, i, f)
      case Malformed => None
      case Next(f', i') => ParseWith(step, b, i', f')
  }

  function Modifiers(): Stepper {
    (b: string, i: nat, f: Fields) => if i < |b| then ModifierAt(b, i, f) else Malformed
  }

  lemma ModifiersProgress()
    ensures Progresses(Modifiers())
  {
    forall b: string, i: nat, f: Fields | i < |b| && Modifiers()(b, i, f).Next?
      ensures i < Modifiers()(b, i, f).i <= |b|
    {
      assert Modifiers()(b, i, f) == ModifierAt(b, i, f);
    }
  }

  /** The fields of a specifier, if it is well-formed. */
  function Parse(b: string, i: nat, f: Fields): Option<Fields>
    requires i <= |b|
  {
    ModifiersProgress();
    ParseWith(Modifiers(), b, i, f)
  }

  lemma ParseStep(b: string, i: nat, f: Fields)
    requires i <= |b|
    ensures Parse(b, i, f)
         == if i == |b| then Some(f)
            else if ModifierAt(b, i, f).Malformed? then None
            else Parse(b, ModifierAt(b, i, f).i, ModifierAt(b, i, f).f)
  {
    ModifiersProgress();
    assert i < |b| ==> Modifiers()(b, i, f) == ModifierAt(b, i, f);
  }

  // ------------------------------------------------------------------
  // The code.

  /** What a step of the parser did: nothing to go on with, or the new fields and offset. */
  ghost predicate Did(p: Parsed, r: Option<nat>, f: Fields) {
    if p.Malformed? then r.None? else r == Some(p.i) && f == p.f
  }

  /** `fmt_spec_t`: the buffer with the text of the specifier, and its fields. */
  class FmtSpec {
    var buf: string
    var spec: Fields

    constructor (index: nat)
      ensures buf == "" && spec == Initial(index)
    {
      buf, spec := "", Initial(index);
    }

    method Init(index: nat)
      modifies this
      ensures buf == "" && spec == Initial(index)
    {
      buf, spec := "", Initial(index);
    }

    method ReadNumber(start: nat, from: Option<nat>) returns (n: Option<nat>, i: nat)
      requires start <= |buf|
      ensures (n, i) == Number(buf, start, from)
    {
      n, i := from, start;
      while i < |buf| && IsDigit(buf[i])
        invariant i <= |buf| && Number(buf, i, n) == Number(buf, start, from)
      {
        n := WithDigit(n, buf[i]);
        i := i + 1;
      }
    }

    method ReadName(start: nat) returns (r: Option<nat>)
      requires start <= |buf|
      modifies this`spec
      ensures Did(NameAt(buf, start, old(spec)), r, spec)
    {
      if spec.name.Some? || spec.indexed {
        return None;
      }
      if start == |buf| || !IsIdentifierFirst(buf[start]) {
        return None;
      }
      var i := start + 1;
      while i < |buf| && IsIdentifierNext(buf[i])
        invariant start < i <= |buf|
        invariant SkipIdentifier(buf, start + 1) == SkipIdentifier(buf, i)
      {
        i := i + 1;
      }
      IdentifierNulFree(buf, start, i);
      spec := spec.(name := Some(buf[start..i]));
      r := Some(i);
    }

    method ReadIndex(start: nat) returns (r: Option<nat>)
      requires start <= |buf|
      modifies this`spec
      ensures Did(IndexAt(buf, start, old(spec)), r, spec)
    {
      if spec.name.Some? || spec.indexed {
        return None;
      }
      var n, i := ReadNumber(start, None);
      if n.None? || i == |buf| || buf[i] != ']' {
        return None;
      }
      spec := spec.(index := n.value, indexed := true);
      r := Some(i + 1);
    }

    method ReadPad(i: nat, left: bool) returns (r: Option<nat>)
      requires i <= |buf|
      modifies this`spec
      ensures Did(PadAt(buf, i, old(spec), left), r, spec)
    {
      if left && spec.lpad.None? && i < |buf| {
        spec := spec.(lpad := Some(buf[i]));
        return Some(i + 1);
      } else if !left && spec.rpad.None? && i < |buf| {
        spec := spec.(rpad := Some(buf[i]));
        return Some(i + 1);
      }
      r := None;
    }

    method ReadAlign(c: char, i: nat) returns (r: Option<nat>)
      requires i <= |buf| && c in {'>', '<', '|'}
      modifies this`spec
      ensures Did(AlignAt(c, buf, i, old(spec)), r, spec)
    {
      if spec.align != NoAlign {
        return None;
      }
      r := Some(i);
      if c == '>' {
        spec := spec.(align := Right);
        if i < |buf| && buf[i] == '|' {
          spec, r := spec.(align := FromLeft), Some(i + 1);
        }
      } else if c == '<' {
        spec := spec.(align := Left);
        if i < |buf| && buf[i] == '|' {
          spec, r := spec.(align := ToLeft), Some(i + 1);
        }
      } else {
        spec := spec.(align := Middle);
        if i < |buf| && buf[i] == '<' {
          spec, r := spec.(align := FromRight), Some(i + 1);
        } else if i < |buf| && buf[i] == '>' {
          spec, r := spec.(align := ToRight), Some(i + 1);
        }
      }
    }

    method ReadExtra(start: nat) returns (r: Option<nat>)
      requires start <= |buf|
      modifies this`spec
      ensures Did(ExtraAt(buf, start, old(spec)), r, spec)
    {
      var n, i := ReadNumber(start, spec.xwidth);
      if n.None? {
        return None;
      }
      spec := spec.(xwidth := n);
      r := Some(i);
    }

    method ReadKind(i: nat) returns (r: Option<nat>)
      requires i <= |buf|
      modifies this`spec
      ensures Did(KindAt(buf, i, old(spec)), r, spec)
    {
      if i == |buf| {
        return None;
      }
      var c := buf[i];
      if IsPlainKind(c) {
        spec := spec.(kind := Some(c));
        return Some(i + 1);
      }
      if !IsPairedKind(c) {
        return Some(i);
      }
      var next := if i + 1 < |buf| then buf[i + 1] else '\0';
      var k := c;
      r := Some(i + 2);
      match c {
        case 'l' => if next == 'l' { k := 'l'; } else if next == 'L' { k := 'z'; } else { r := Some(i + 1); }
        case 'L' => if next == 'l' { k := 'Z'; } else if next == 'L' { k := 'L'; } else { r := Some(i + 1); }
        case 't' => if next == 't' { k := 't'; } else if next == 'T' { k := 'y'; } else { r := Some(i + 1); }
        case _   => if next == 't' { k := 'Y'; } else if next == 'T' { k := 'T'; } else { r := Some(i + 1); }
      }
      spec := spec.(kind := Some(k));
    }

    method ReadFraction(start: nat) returns (r: Option<nat>)
      requires start <= |buf|
      modifies this`spec
      ensures Did(FractionAt(buf, start, old(spec)), r, spec)
    {
      var i := start;
      if i < |buf| && buf[i] == '.' {
        var n, j := ReadNumber(i + 1, spec.frac);
        if n.None? {
          return None;
        }
        spec := spec.(frac := n);
        i := j;
      }
      r := ReadKind(i);
    }

    method ReadType(start: nat) returns (r: Option<nat>)
      requires start <= |buf|
      modifies this`spec
      ensures Did(TypeAt(buf, start, old(spec)), r, spec)
    {
      if spec.typed {
        return None;
      }
      spec := spec.(typed := true);
      var i := start;
      if i < |buf| && buf[i] == '+' {
        spec := spec.(sign := true);
        i := i + 1;
      }
      var n, j := ReadNumber(i, spec.width);
      spec := spec.(width := n);
      r := ReadFraction(j);
    }

    method ReadModifier(i: nat) returns (r: Option<nat>)
      requires i < |buf|
      modifies this`spec
      ensures Did(ModifierAt(buf, i, old(spec)), r, spec)
    {
      match buf[i] {
        case '@' => r := ReadName(i + 1);
        case '[' => r := ReadIndex(i + 1);
        case '^' => r := ReadPad(i + 1, true);
        case '$' => r := ReadPad(i + 1, false);
        case '>' => r := ReadAlign('>', i + 1);
        case '<' => r := ReadAlign('<', i + 1);
        case '|' => r := ReadAlign('|', i + 1);
        case ':' => r := ReadExtra(i + 1);
        case '%' => r := ReadType(i + 1);
        case _ => r := None;
      }
    }

    /** The parse loop. */
    method ParseBuffer() returns (ok: bool)
      modifies this`spec
      ensures ok <==> Parse(buf, 0, old(spec)).Some?
      ensures ok ==> spec == Parse(buf, 0, old(spec)).value
    {
      var i := 0;
      while i < |buf|
        invariant i <= |buf| && Parse(buf, i, spec) == Parse(buf, 0, old(spec))
      {
        ParseStep(buf, i, spec);
        var r := ReadModifier(i);
        if r.None? {
          return false;
        }
        i := r.value;
      }
      ParseStep(buf, i, spec);
      return true;
    }
  }
}
