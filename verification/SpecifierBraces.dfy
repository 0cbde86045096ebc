/** Closing braces in the text of a specifier: src/main/expr/format.cpp. */
module SpecifierBraces {
  import opened Basics
  import opened Lexing
  import N = NumberText
  import opened Specifiers
  import opened SpecifierText
  import opened Texts

  /** A closing brace is not the padding of either side. */
  predicate NoBracePad(f: Fields) {
    f.lpad != Some('}') && f.rpad != Some('}')
  }

  predicate IsBracePad(p: Part) {
    p.PadPart? && p.c == '}'
  }

  // ------------------------------------------------------------------
  // A specifier without such padding is written without a closing brace.

  lemma BothWithoutBrace(a: string, b: string)
    requires NoBrace(a) && NoBrace(b)
    ensures NoBrace(a + b)
  {
  }

  lemma TypeWithoutBrace(p: Part)
    requires p.TypePart? && Printable(p)
    ensures NoBrace(PartText(p))
  {
    BothWithoutBrace(FractionText(p.frac), p.kind);
    BothWithoutBrace(p.width, FractionText(p.frac) + p.kind);
    BothWithoutBrace(N.SignText(false, p.plus), p.width + (FractionText(p.frac) + p.kind));
    BothWithoutBrace("%", N.SignText(false, p.plus) + (p.width + (FractionText(p.frac) + p.kind)));
  }

  lemma PartWithoutBrace(p: Part)
    requires Printable(p) && !IsBracePad(p)
    ensures NoBrace(PartText(p))
  {
    if p.TypePart? {
      TypeWithoutBrace(p);
    }
  }

  lemma {:induction false} PartsWithoutBrace(f: Fields, parts: seq<Part>)
    requires Fits(f, parts) && forall p :: p in parts ==> !IsBracePad(p)
    ensures NoBrace(Text(parts))
    decreases |parts|
  {
    if parts != [] {
      assert parts[0] in parts && forall p :: p in parts[1..] ==> p in parts;
      PartsWithoutBrace(Apply(f, parts[0]), parts[1..]);
      PartWithoutBrace(parts[0]);
      BothWithoutBrace(PartText(parts[0]), Text(parts[1..]));
    }
  }

  lemma {:induction false} TailHasNoPad(f: Fields, p: Part)
    requires p in SpecifierText.Tail(f)
    ensures !p.PadPart?
  {
    InConsed(AlignedPart(f), Consed(WidthPart(f), Consed(KindPart(f), [])), p);
    InConsed(WidthPart(f), Consed(KindPart(f), []), p);
    InConsed(KindPart(f), [], p);
  }

  lemma InConsed(o: Option<Part>, rest: seq<Part>, p: Part)
    ensures p in Consed(o, rest) ==> o == Some(p) || p in rest
  {
  }

  lemma PadsOf(f: Fields, p: Part)
    requires NoBracePad(f) && p in PartsOf(f)
    ensures !IsBracePad(p)
  {
    var tail := SpecifierText.Tail(f);
    InConsed(WherePart(f), Consed(LeftPart(f), Consed(RightPart(f), tail)), p);
    InConsed(LeftPart(f), Consed(RightPart(f), tail), p);
    InConsed(RightPart(f), tail, p);
    if p in tail {
      TailHasNoPad(f, p);
    }
  }

  // ------------------------------------------------------------------
  // A text without a closing brace is not parsed to such padding.

  /** A step that leaves the padding as it is. */
  predicate KeepsPads(f: Fields, p: Parsed) {
    p.Next? ==> p.f.lpad == f.lpad && p.f.rpad == f.rpad
  }

  lemma WhereKeepsPads(b: string, i: nat, f: Fields)
    requires i <= |b|
    ensures KeepsPads(f, NameAt(b, i, f)) && KeepsPads(f, IndexAt(b, i, f))
  {
  }

  lemma KindKeepsPads(b: string, i: nat, f: Fields)
    requires i <= |b|
    ensures KeepsPads(f, KindAt(b, i, f))
  {
  }

  lemma TypeKeepsPads(b: string, i: nat, f: Fields)
    requires i <= |b|
    ensures KeepsPads(f, TypeAt(b, i, f))
  {
    var plus := CharIs(b, i, '+');
    var (n, j) := Number(b, if plus then i + 1 else i, f.width);
    var g := f.(typed := true, sign := f.sign || plus, width := n);
    if CharIs(b, j, '.') {
      var (m, k) := Number(b, j + 1, f.frac);
      KindKeepsPads(b, k, g.(frac := m));
    } else {
      KindKeepsPads(b, j, g);
    }
  }

  lemma OthersKeepPads(c: char, b: string, i: nat, f: Fields)
    requires i <= |b|
    ensures KeepsPads(f, AlignAt(c, b, i, f)) && KeepsPads(f, ExtraAt(b, i, f))
  {
  }

  lemma PadWithoutBrace(b: string, i: nat, f: Fields, left: bool)
    requires i <= |b| && NoBrace(b) && NoBracePad(f) && PadAt(b, i, f, left).Next?
    ensures NoBracePad(PadAt(b, i, f, left).f)
  {
  }

  lemma ModifierPads(b: string, i: nat, f: Fields)
    requires i < |b| && NoBrace(b) && NoBracePad(f) && ModifierAt(b, i, f).Next?
    ensures NoBracePad(ModifierAt(b, i, f).f)
  {
    var p := ModifierAt(b, i, f);
    if b[i] == '^' || b[i] == '$' {
      assert p == PadAt(b, i + 1, f, b[i] == '^');
      PadWithoutBrace(b, i + 1, f, b[i] == '^');
    } else {
      OtherKeepsPads(b, i, f);
    }
  }

  lemma OtherKeepsPads(b: string, i: nat, f: Fields)
    requires i < |b| && b[i] != '^' && b[i] != '$'
    ensures KeepsPads(f, ModifierAt(b, i, f))
  {
    var p := ModifierAt(b, i, f);
    if b[i] == '@' {
      assert p == NameAt(b, i + 1, f);
      WhereKeepsPads(b, i + 1, f);
    } else if b[i] == '[' {
      assert p == IndexAt(b, i + 1, f);
      WhereKeepsPads(b, i + 1, f);
    } else if b[i] == '%' {
      assert p == TypeAt(b, i + 1, f);
      TypeKeepsPads(b, i + 1, f);
    } else if b[i] == ':' {
      assert p == ExtraAt(b, i + 1, f);
      OthersKeepPads(b[i], b, i + 1, f);
    } else {
      assert p == AlignAt(b[i], b, i + 1, f) || p == Malformed;
      OthersKeepPads(b[i], b, i + 1, f);
    }
  }

  lemma {:induction false} ParsePads(b: string, i: nat, f: Fields)
    requires i <= |b| && NoBrace(b) && NoBracePad(f)
    ensures Parse(b, i, f).Some? ==> NoBracePad(Parse(b, i, f).value)
    decreases |b| - i
  {
    ParseStep(b, i, f);
    if i < |b| && ModifierAt(b, i, f).Next? {
      ModifierPads(b, i, f);
      ParsePads(b, ModifierAt(b, i, f).i, ModifierAt(b, i, f).f);
    }
  }

  lemma WrittenWithoutBrace(f: Fields, index: nat, parts: seq<Part>)
    requires IsSpecifier(f, index) && multiset(parts) == multiset(PartsOf(f)) && NoBracePad(f)
    ensures NoBrace(Text(parts))
  {
    PartsGive(f, index);
    OrderFree(Initial(index), PartsOf(f), parts);
    forall p | p in parts ensures !IsBracePad(p) {
      assert p in multiset(parts);
      assert p in PartsOf(f);
      PadsOf(f, p);
    }
    PartsWithoutBrace(Initial(index), parts);
  }
}
