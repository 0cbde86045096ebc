/** Writing format specifiers: what the parser of src/main/expr/format.cpp reads back, in
    whatever order the modifiers are written. */
module SpecifierText {
  import opened Basics
  import opened Names
  import opened Numerals
  import opened Lexing
  import N = NumberText
  import opened Specifiers
  import opened Texts

  /** One modifier, as it is written. A type with an empty kind is a typeless one. */
  datatype Part =
    | NamePart(name: Name)
    | IndexPart(digits: string)
    | PadPart(left: bool, c: char)
    | AlignPart(a: Align)
    | ExtraPart(digits: string)
    | TypePart(plus: bool, width: string, frac: Option<string>, kind: string)

  function AlignText(a: Align): string {
    match a
    case NoAlign => ""
    case Left => "<"
    case Right => ">"
    case Middle => "|"
    case FromLeft => ">|"
    case FromRight => "|<"
    case ToLeft => "<|"
    case ToRight => "|>"
  }

  function FractionText(frac: Option<string>): string {
    if frac.None? then "" else "." + frac.value
  }

  function PartText(p: Part): string {
    match p
    case NamePart(name) => "@" + name
    case IndexPart(digits) => "[" + (digits + "]")
    case PadPart(left, c) => (if left then "^" else "$") + [c]
    case AlignPart(a) => AlignText(a)
    case ExtraPart(digits) => ":" + digits
    case TypePart(plus, width, frac, kind) => "%" + (N.SignText(false, plus) + (width + (FractionText(frac) + kind)))
  }

  function Text(parts: seq<Part>): string {
    if parts == [] then "" else PartText(parts[0]) + Text(parts[1..])
  }

  // ------------------------------------------------------------------
  // What a modifier says.

  /** The value of digits, read behind `n`. */
  function ReadDigits(s: string, n: Option<nat>): (r: Option<nat>)
    requires AllDecimal(s)
    ensures n.Some? || s != "" ==> r.Some?
    decreases |s|
  {
    if s == "" then n else ReadDigits(s[1..], WithDigit(n, s[0]))
  }

  predicate AllDecimal(s: string) {
    forall i :: 0 <= i < |s| ==> IsDigit(s[i])
  }

  /** The kind that a type text stands for: two letters give the case of a first letter and of
      the others. */
  function KindOf(kind: string): Option<char> {
    if |kind| == 1 then Some(kind[0])
    else if |kind| == 2 then
      if kind[0] == kind[1] then Some(kind[0])
      else if kind[0] == 'l' then Some('z')
      else if kind[0] == 'L' then Some('Z')
      else if kind[0] == 't' then Some('y')
      else Some('Y')
    else None
  }

  /** The letters of the types. */
  predicate IsTypeLetter(c: char) {
    match c
    case 'i' | 'd' | 'u' | 'b' | 'o' | 'x' | 'X' => true
    case 'f' | 'F' | 'e' | 'E' => true
    case 's' | 'S' | 'l' | 'L' | 't' | 'T' => true
    case _ => false
  }

  predicate IsBoolean(c: char) {
    c == 'l' || c == 'L'
  }

  predicate IsText(c: char) {
    c == 't' || c == 'T'
  }

  predicate KindText(kind: string) {
    || kind == ""
    || (|kind| == 1 && IsTypeLetter(kind[0]))
    || (|kind| == 2 && ((IsBoolean(kind[0]) && IsBoolean(kind[1])) || (IsText(kind[0]) && IsText(kind[1]))))
  }

  predicate Identifier(s: string) {
    s != "" && IsIdentifierFirst(s[0]) && forall i :: 1 <= i < |s| ==> IsIdentifierNext(s[i])
  }

  predicate Printable(p: Part) {
    match p
    case NamePart(name) => Identifier(name)
    case IndexPart(digits) => digits != "" && AllDecimal(digits)
    case PadPart(_, _) => true
    case AlignPart(a) => a != NoAlign
    case ExtraPart(digits) => digits != "" && AllDecimal(digits)
    case TypePart(_, width, frac, kind) =>
      AllDecimal(width) && (frac.Some? ==> frac.value != "" && AllDecimal(frac.value)) && KindText(kind)
  }

  function Apply(f: Fields, p: Part): Fields
    requires Printable(p)
  {
    match p
    case NamePart(name) => f.(name := Some(name))
    case IndexPart(digits) => f.(index := ReadDigits(digits, None).value, indexed := true)
    case PadPart(left, c) => if left then f.(lpad := Some(c)) else f.(rpad := Some(c))
    case AlignPart(a) => f.(align := a)
    case ExtraPart(digits) => f.(xwidth := ReadDigits(digits, None))
    case TypePart(plus, width, frac, kind) =>
      f.(typed := true, sign := plus, width := ReadDigits(width, None),
         frac := if frac.None? then None else ReadDigits(frac.value, None), kind := KindOf(kind))
  }

  /** Nothing has been said yet about what the modifier sets. */
  predicate Free(f: Fields, p: Part) {
    match p
    case NamePart(_) => f.name.None? && !f.indexed
    case IndexPart(_) => f.name.None? && !f.indexed
    case PadPart(left, _) => if left then f.lpad.None? else f.rpad.None?
    case AlignPart(_) => f.align == NoAlign
    case ExtraPart(_) => f.xwidth.None?
    case TypePart(_, _, _, _) => !f.typed && !f.sign && f.width.None? && f.frac.None? && f.kind.None?
  }

  /** Modifiers for different fields, in any order. */
  predicate Fits(f: Fields, parts: seq<Part>)
    decreases |parts|
  {
    parts != [] ==> Printable(parts[0]) && Free(f, parts[0]) && Fits(Apply(f, parts[0]), parts[1..])
  }

  function ApplyAll(f: Fields, parts: seq<Part>): Fields
    requires Fits(f, parts)
    decreases |parts|
  {
    if parts == [] then f else ApplyAll(Apply(f, parts[0]), parts[1..])
  }

  /** A type without a kind. */
  predicate Typeless(p: Part) {
    p.TypePart? && p.kind == ""
  }

  /** The last modifier is a type without a kind. */
  predicate EndsTypeless(parts: seq<Part>)
    decreases |parts|
  {
    parts != [] && (if parts[1..] == [] then Typeless(parts[0]) else EndsTypeless(parts[1..]))
  }

  // ------------------------------------------------------------------
  // Reading the parts of a modifier.

  /** The character a modifier starts with. */
  predicate Starts(c: char) {
    c == '@' || c == '[' || c == '^' || c == '$' || c == '>' || c == '<' || c == '|' || c == ':' || c == '%'
  }

  /** The end of the specifier or the start of a modifier. */
  predicate Ended(b: string, i: nat) {
    i <= |b| && (i < |b| ==> Starts(b[i]))
  }

  lemma {:induction false} NumberRead(b: string, i: nat, s: string, n: Option<nat>)
    requires Occurs(b, i, s) && AllDecimal(s) && (i + |s| < |b| ==> !IsDigit(b[i + |s|]))
    ensures Number(b, i, n) == (ReadDigits(s, n), i + |s|)
    decreases |s|
  {
    if s != "" {
      First(b, i, s);
      NumberRead(b, i + 1, s[1..], WithDigit(n, s[0]));
    }
  }

  // ------------------------------------------------------------------
  // Reading a modifier from behind its first character.

  lemma NameRead(b: string, i: nat, name: Name, f: Fields)
    requires Occurs(b, i, name) && Identifier(name) && Ended(b, i + |name|)
    requires f.name.None? && !f.indexed
    ensures NameAt(b, i, f) == Next(f.(name := Some(name)), i + |name|)
  {
    First(b, i, name);
    IdentifierEnds(b, i + 1, name[1..]);
    assert b[i..i + |name|] == name;
  }

  lemma IndexRead(b: string, i: nat, digits: string, f: Fields)
    requires Occurs(b, i, digits) && CharIs(b, i + |digits|, ']') && digits != "" && AllDecimal(digits)
    requires f.name.None? && !f.indexed
    ensures IndexAt(b, i, f) == Next(f.(index := ReadDigits(digits, None).value, indexed := true), i + |digits| + 1)
  {
    NumberRead(b, i, digits, None);
  }

  lemma AlignRead(b: string, i: nat, a: Align, f: Fields)
    requires Occurs(b, i, AlignText(a)) && a != NoAlign && f.align == NoAlign
    requires var j := i + |AlignText(a)|; !CharIs(b, j, '>') && !CharIs(b, j, '<') && !CharIs(b, j, '|')
    ensures b[i] == AlignText(a)[0]
    ensures AlignAt(b[i], b, i + 1, f) == Next(f.(align := a), i + |AlignText(a)|)
  {
    assert b[i + 0] == AlignText(a)[0];
    assert |AlignText(a)| == 2 ==> b[i + 1] == AlignText(a)[1];
  }

  lemma ExtraRead(b: string, i: nat, digits: string, f: Fields)
    requires Occurs(b, i, digits) && Ended(b, i + |digits|) && digits != "" && AllDecimal(digits)
    requires f.xwidth.None?
    ensures ExtraAt(b, i, f) == Next(f.(xwidth := ReadDigits(digits, None)), i + |digits|)
  {
    NumberRead(b, i, digits, None);
  }

  /** A type text is read whole, unless it is empty and nothing follows. */
  lemma KindRead(b: string, i: nat, kind: string, f: Fields)
    requires Occurs(b, i, kind) && Ended(b, i + |kind|) && KindText(kind) && f.kind.None?
    ensures KindAt(b, i, f)
         == if kind == "" && i == |b| then Malformed else Next(f.(kind := KindOf(kind)), i + |kind|)
  {
    if kind != "" {
      assert b[i + 0] == kind[0];
      assert |kind| == 2 ==> b[i + 1] == kind[1];
    }
  }

  function FractionValue(frac: Option<string>): Option<nat>
    requires frac.Some? ==> AllDecimal(frac.value)
  {
    if frac.None? then None else ReadDigits(frac.value, None)
  }

  /** What a type can go on with behind a number. */
  lemma KindIsNoDigit(b: string, i: nat, kind: string)
    requires Occurs(b, i, kind) && Ended(b, i + |kind|) && KindText(kind)
    ensures i < |b| ==> !IsDigit(b[i]) && b[i] != '.' && b[i] != '+'
  {
    if kind != "" {
      assert b[i + 0] == kind[0];
    }
  }

  lemma FractionRead(b: string, i: nat, frac: Option<string>, f: Fields)
    requires Occurs(b, i, FractionText(frac)) && f.frac.None?
    requires frac.Some? ==> frac.value != "" && AllDecimal(frac.value)
    requires var j := i + |FractionText(frac)|; j < |b| ==> !IsDigit(b[j]) && b[j] != '.'
    ensures FractionAt(b, i, f) == KindAt(b, i + |FractionText(frac)|, f.(frac := FractionValue(frac)))
    ensures frac.Some? ==> b[i] == '.'
  {
    if frac.Some? {
      Split(b, i, ".", frac.value);
      assert b[i + 0] == "."[0];
      NumberRead(b, i + 1, frac.value, None);
    } else {
      assert f.(frac := None) == f;
    }
  }

  /** What can stand behind the width of a type. */
  lemma FractionIsNoDigit(b: string, i: nat, frac: Option<string>, kind: string)
    requires Occurs(b, i, FractionText(frac)) && Occurs(b, i + |FractionText(frac)|, kind)
    requires KindText(kind) && Ended(b, i + |FractionText(frac)| + |kind|)
    ensures i < |b| ==> !IsDigit(b[i]) && b[i] != '+'
  {
    KindIsNoDigit(b, i + |FractionText(frac)|, kind);
    if frac.Some? {
      assert b[i + 0] == FractionText(frac)[0];
    }
  }

  lemma SignRead(b: string, i: nat, plus: bool, width: string)
    requires Occurs(b, i, N.SignText(false, plus)) && Occurs(b, i + |N.SignText(false, plus)|, width)
    requires AllDecimal(width)
    requires var j := i + |N.SignText(false, plus)| + |width|; j < |b| ==> b[j] != '+'
    ensures CharIs(b, i, '+') <==> plus
  {
    if plus {
      assert b[i + 0] == N.SignText(false, plus)[0];
    } else if width != "" {
      assert b[i + 0] == width[0];
    }
  }

  lemma WidthRead(b: string, i: nat, plus: bool, width: string, f: Fields)
    requires Occurs(b, i, N.SignText(false, plus)) && Occurs(b, i + |N.SignText(false, plus)|, width)
    requires AllDecimal(width)
    requires var j := i + |N.SignText(false, plus)| + |width|; j < |b| ==> !IsDigit(b[j]) && b[j] != '+'
    requires !f.typed && !f.sign && f.width.None?
    ensures TypeAt(b, i, f)
         == FractionAt(b, i + |N.SignText(false, plus)| + |width|,
                       f.(typed := true, sign := plus, width := ReadDigits(width, None)))
  {
    NumberRead(b, i + |N.SignText(false, plus)|, width, None);
    SignRead(b, i, plus, width);
  }

  /** The pieces of a type stand one behind another. */
  ghost predicate TypeStands(b: string, i: nat, p: Part)
    requires p.TypePart?
  {
    var j := i + |N.SignText(false, p.plus)|;
    var k := j + |p.width|;
    && Occurs(b, i, N.SignText(false, p.plus)) && Occurs(b, j, p.width)
    && Occurs(b, k, FractionText(p.frac)) && Occurs(b, k + |FractionText(p.frac)|, p.kind)
  }

  lemma TypePieces(b: string, i: nat, p: Part)
    requires p.TypePart? && Occurs(b, i, N.SignText(false, p.plus) + (p.width + (FractionText(p.frac) + p.kind)))
    ensures TypeStands(b, i, p)
  {
    var j := i + |N.SignText(false, p.plus)|;
    Split(b, i, N.SignText(false, p.plus), p.width + (FractionText(p.frac) + p.kind));
    Split(b, j, p.width, FractionText(p.frac) + p.kind);
    Split(b, j + |p.width|, FractionText(p.frac), p.kind);
  }

  function TypeLength(p: Part): nat
    requires p.TypePart?
  {
    |N.SignText(false, p.plus)| + |p.width| + |FractionText(p.frac)| + |p.kind|
  }

  lemma FractionAndKindRead(b: string, i: nat, frac: Option<string>, kind: string, f: Fields)
    requires Occurs(b, i, FractionText(frac)) && Occurs(b, i + |FractionText(frac)|, kind)
    requires frac.Some? ==> frac.value != "" && AllDecimal(frac.value)
    requires KindText(kind) && Ended(b, i + |FractionText(frac)| + |kind|)
    requires f.frac.None? && f.kind.None?
    ensures var j := i + |FractionText(frac)| + |kind|;
      FractionAt(b, i, f)
      == if kind == "" && j == |b| then Malformed else Next(f.(frac := FractionValue(frac), kind := KindOf(kind)), j)
  {
    KindIsNoDigit(b, i + |FractionText(frac)|, kind);
    FractionRead(b, i, frac, f);
    KindRead(b, i + |FractionText(frac)|, kind, f.(frac := FractionValue(frac)));
  }

  /** The sign and the width of a type, taken in. */
  function WithWidth(f: Fields, p: Part): Fields
    requires p.TypePart? && Printable(p)
  {
    f.(typed := true, sign := p.plus, width := ReadDigits(p.width, None))
  }

  lemma WidthPartRead(b: string, i: nat, p: Part, f: Fields)
    requires p.TypePart? && Printable(p) && Free(f, p)
    requires TypeStands(b, i, p) && Ended(b, i + TypeLength(p))
    ensures TypeAt(b, i, f) == FractionAt(b, i + |N.SignText(false, p.plus)| + |p.width|, WithWidth(f, p))
  {
    FractionIsNoDigit(b, i + |N.SignText(false, p.plus)| + |p.width|, p.frac, p.kind);
    WidthRead(b, i, p.plus, p.width, f);
  }

  lemma FractionPartRead(b: string, i: nat, p: Part, f: Fields)
    requires p.TypePart? && Printable(p) && Free(f, p)
    requires TypeStands(b, i, p) && Ended(b, i + TypeLength(p))
    ensures FractionAt(b, i + |N.SignText(false, p.plus)| + |p.width|, WithWidth(f, p))
         == if p.kind == "" && i + TypeLength(p) == |b| then Malformed else Next(Apply(f, p), i + TypeLength(p))
  {
    FractionAndKindRead(b, i + |N.SignText(false, p.plus)| + |p.width|, p.frac, p.kind, WithWidth(f, p));
  }

  lemma TypeRead(b: string, i: nat, p: Part, f: Fields)
    requires p.TypePart? && Printable(p) && Free(f, p)
    requires TypeStands(b, i, p) && Ended(b, i + TypeLength(p))
    ensures TypeAt(b, i, f)
         == if p.kind == "" && i + TypeLength(p) == |b| then Malformed else Next(Apply(f, p), i + TypeLength(p))
  {
    WidthPartRead(b, i, p, f);
    FractionPartRead(b, i, p, f);
  }

  /** What follows a modifier in a specifier with modifiers for different fields. */
  predicate Follows(p: Part, b: string, j: nat) {
    && Ended(b, j)
    && (p.AlignPart? ==> !CharIs(b, j, '>') && !CharIs(b, j, '<') && !CharIs(b, j, '|'))
  }

  /** A modifier is read whole and says what it was written for. */
  ghost predicate ReadWhole(b: string, i: nat, p: Part, f: Fields)
    requires i < |b| && Printable(p)
  {
    ModifierAt(b, i, f)
    == if Typeless(p) && i + |PartText(p)| == |b| then Malformed else Next(Apply(f, p), i + |PartText(p)|)
  }

  lemma NamePartRead(b: string, i: nat, p: Part, f: Fields)
    requires p.NamePart? && Occurs(b, i, PartText(p)) && Printable(p) && Free(f, p) && Ended(b, i + |PartText(p)|)
    ensures ReadWhole(b, i, p, f)
  {
    Split(b, i, "@", p.name);
    assert b[i + 0] == "@"[0];
    NameRead(b, i + 1, p.name, f);
  }

  lemma IndexPartRead(b: string, i: nat, p: Part, f: Fields)
    requires p.IndexPart? && Occurs(b, i, PartText(p)) && Printable(p) && Free(f, p)
    ensures ReadWhole(b, i, p, f)
  {
    Split(b, i, "[", p.digits + "]");
    Split(b, i + 1, p.digits, "]");
    assert b[i + 0] == "["[0] && b[i + 1 + |p.digits| + 0] == "]"[0];
    IndexRead(b, i + 1, p.digits, f);
  }

  lemma PadPartRead(b: string, i: nat, p: Part, f: Fields)
    requires p.PadPart? && Occurs(b, i, PartText(p)) && Free(f, p)
    ensures ReadWhole(b, i, p, f)
  {
    assert b[i + 0] == PartText(p)[0] && b[i + 1] == PartText(p)[1];
  }

  lemma ExtraPartRead(b: string, i: nat, p: Part, f: Fields)
    requires p.ExtraPart? && Occurs(b, i, PartText(p)) && Printable(p) && Free(f, p) && Ended(b, i + |PartText(p)|)
    ensures ReadWhole(b, i, p, f)
  {
    Split(b, i, ":", p.digits);
    assert b[i + 0] == ":"[0];
    ExtraRead(b, i + 1, p.digits, f);
  }

  lemma TypePartStands(b: string, i: nat, p: Part)
    requires p.TypePart? && Occurs(b, i, PartText(p))
    ensures b[i] == '%' && TypeStands(b, i + 1, p) && |PartText(p)| == 1 + TypeLength(p)
  {
    Split(b, i, "%", N.SignText(false, p.plus) + (p.width + (FractionText(p.frac) + p.kind)));
    assert b[i + 0] == "%"[0];
    TypePieces(b, i + 1, p);
  }

  lemma TypePartRead(b: string, i: nat, p: Part, f: Fields)
    requires p.TypePart? && Occurs(b, i, PartText(p)) && Printable(p) && Free(f, p) && Ended(b, i + |PartText(p)|)
    ensures ReadWhole(b, i, p, f)
  {
    TypePartStands(b, i, p);
    TypeRead(b, i + 1, p, f);
  }

  lemma PartRead(b: string, i: nat, p: Part, f: Fields)
    requires Occurs(b, i, PartText(p)) && Printable(p) && Free(f, p) && Follows(p, b, i + |PartText(p)|)
    ensures PartText(p) != "" && ReadWhole(b, i, p, f)
  {
    match p
    case NamePart(_) => NamePartRead(b, i, p, f);
    case IndexPart(_) => IndexPartRead(b, i, p, f);
    case PadPart(_, _) => PadPartRead(b, i, p, f);
    case AlignPart(a) => AlignRead(b, i, a, f);
    case ExtraPart(_) => ExtraPartRead(b, i, p, f);
    case TypePart(_, _, _, _) => TypePartRead(b, i, p, f);
  }

  // ------------------------------------------------------------------
  // Reading a specifier.

  lemma PartStarts(p: Part)
    requires Printable(p)
    ensures PartText(p) != "" && Starts(PartText(p)[0])
    ensures !p.AlignPart? ==> PartText(p)[0] != '>' && PartText(p)[0] != '<' && PartText(p)[0] != '|'
  {
  }

  lemma TextFollows(p: Part, b: string, j: nat, rest: seq<Part>)
    requires Printable(p) && j <= |b| && b[j..] == Text(rest) && (rest != [] ==> Printable(rest[0]))
    requires p.AlignPart? && rest != [] ==> !rest[0].AlignPart?
    ensures Follows(p, b, j) && (j == |b| <==> rest == [])
  {
    if rest != [] {
      PartStarts(rest[0]);
      assert b[j] == b[j..][0] == PartText(rest[0])[0];
    }
  }

  lemma NextFits(f: Fields, parts: seq<Part>)
    requires parts != [] && Fits(f, parts)
    ensures Printable(parts[0]) && (parts[1..] != [] ==> Printable(parts[1]))
    ensures parts[0].AlignPart? && parts[1..] != [] ==> !parts[1].AlignPart?
  {
  }

  lemma NextFollows(b: string, i: nat, f: Fields, parts: seq<Part>)
    requires parts != [] && Fits(f, parts) && i <= |b| && b[i..] == Text(parts)
    ensures var j := i + |PartText(parts[0])|;
      Occurs(b, i, PartText(parts[0])) && j <= |b| && b[j..] == Text(parts[1..]) && Follows(parts[0], b, j)
      && (j == |b| <==> parts[1..] == [])
  {
    Leads(b, i, PartText(parts[0]), Text(parts[1..]));
    NextFits(f, parts);
    TextFollows(parts[0], b, i + |PartText(parts[0])|, parts[1..]);
  }

  /** A parser that reads every modifier whole, whatever it is that it follows. */
  ghost predicate ReadsParts(step: Stepper) {
    && Progresses(step)
    && forall b: string, i: nat, p: Part, f: Fields {:trigger step(b, i, f), PartText(p)} ::
      Occurs(b, i, PartText(p)) && Printable(p) && Free(f, p) && Follows(p, b, i + |PartText(p)|) ==>
      step(b, i, f)
      == if Typeless(p) && i + |PartText(p)| == |b| then Malformed else Next(Apply(f, p), i + |PartText(p)|)
  }

  lemma ModifiersReadParts()
    ensures ReadsParts(Modifiers())
  {
    ModifiersProgress();
    forall b: string, i: nat, p: Part, f: Fields
      | Occurs(b, i, PartText(p)) && Printable(p) && Free(f, p) && Follows(p, b, i + |PartText(p)|)
      ensures Modifiers()(b, i, f)
           == if Typeless(p) && i + |PartText(p)| == |b| then Malformed else Next(Apply(f, p), i + |PartText(p)|)
    {
      PartRead(b, i, p, f);
      assert Modifiers()(b, i, f) == ModifierAt(b, i, f);
    }
  }

  /** The modifiers stand in `b` one behind another, from offset `i` to the end. */
  ghost predicate Stand(b: string, i: nat, parts: seq<Part>)
    decreases |parts|
  {
    if parts == [] then i == |b|
    else
      var j := i + |PartText(parts[0])|;
      Occurs(b, i, PartText(parts[0])) && Follows(parts[0], b, j) && Stand(b, j, parts[1..])
  }

  lemma {:induction false} TextStands(b: string, i: nat, f: Fields, parts: seq<Part>)
    requires Fits(f, parts) && i <= |b| && b[i..] == Text(parts)
    ensures Stand(b, i, parts)
    decreases |parts|
  {
    if parts != [] {
      NextFollows(b, i, f, parts);
      TextStands(b, i + |PartText(parts[0])|, Apply(f, parts[0]), parts[1..]);
    }
  }

  lemma FirstRead(step: Stepper, b: string, i: nat, f: Fields, parts: seq<Part>)
    requires ReadsParts(step) && parts != [] && Fits(f, parts) && Stand(b, i, parts)
    ensures var j := i + |PartText(parts[0])|;
      && j <= |b| && (j == |b| <==> parts[1..] == [])
      && ParseWith(step, b, i, f)
      == if Typeless(parts[0]) && parts[1..] == [] then None else ParseWith(step, b, j, Apply(f, parts[0]))
  {
    PartStarts(parts[0]);
    if parts[1..] != [] {
      PartStarts(parts[1]);
    }
    var p := parts[0];
    assert step(b, i, f)
        == if Typeless(p) && i + |PartText(p)| == |b| then Malformed else Next(Apply(f, p), i + |PartText(p)|);
  }

  /** What reading modifiers one behind another gives. */
  function Outcome(f: Fields, parts: seq<Part>): Option<Fields>
    requires Fits(f, parts)
  {
    if EndsTypeless(parts) then None else Some(ApplyAll(f, parts))
  }

  lemma OutcomeStep(f: Fields, parts: seq<Part>)
    requires parts != [] && Fits(f, parts)
    ensures Outcome(f, parts)
         == if Typeless(parts[0]) && parts[1..] == [] then None else Outcome(Apply(f, parts[0]), parts[1..])
  {
  }

  /** The parser, from an offset and some fields on. */
  type Continuation = (nat, Fields) -> Option<Fields>

  /** It reads a first modifier and goes on behind it, up to the end of the buffer. */
  ghost predicate ReadsOn(more: Continuation, b: string) {
    && (forall f: Fields {:trigger more(|b|, f)} :: more(|b|, f) == Some(f))
    && (forall i: nat, f: Fields, parts: seq<Part> {:trigger more(i, f), Stand(b, i, parts)} ::
          parts != [] && Fits(f, parts) && Stand(b, i, parts) ==>
          more(i, f)
          == if Typeless(parts[0]) && parts[1..] == [] then None
             else more(i + |PartText(parts[0])|, Apply(f, parts[0])))
  }

  lemma {:induction false} PartsRead(more: Continuation, b: string, i: nat, f: Fields, parts: seq<Part>)
    requires ReadsOn(more, b) && Fits(f, parts) && Stand(b, i, parts)
    ensures more(i, f) == Outcome(f, parts)
    decreases |parts|
  {
    if parts != [] {
      OutcomeStep(f, parts);
      if parts[1..] != [] || !Typeless(parts[0]) {
        PartsRead(more, b, i + |PartText(parts[0])|, Apply(f, parts[0]), parts[1..]);
      }
    }
  }

  function Parser(step: Stepper, b: string): Continuation
    requires Progresses(step)
  {
    (i: nat, f: Fields) => if i <= |b| then ParseWith(step, b, i, f) else None
  }

  lemma ParserReadsOn(step: Stepper, b: string)
    requires ReadsParts(step)
    ensures ReadsOn(Parser(step, b), b)
  {
    var more := Parser(step, b);
    forall i: nat, f: Fields, parts: seq<Part> | parts != [] && Fits(f, parts) && Stand(b, i, parts)
      ensures more(i, f)
           == if Typeless(parts[0]) && parts[1..] == [] then None
              else more(i + |PartText(parts[0])|, Apply(f, parts[0]))
    {
      StandsWithin(b, i, parts);
      FirstRead(step, b, i, f, parts);
    }
  }

  lemma StandsWithin(b: string, i: nat, parts: seq<Part>)
    requires Stand(b, i, parts)
    ensures i <= |b|
  {
  }

  /** Modifiers for different fields are all read; only a type without a kind must not be the
      last one. */
  lemma SpecifierRead(f: Fields, parts: seq<Part>)
    requires Fits(f, parts)
    ensures Parse(Text(parts), 0, f) == if EndsTypeless(parts) then None else Some(ApplyAll(f, parts))
  {
    ModifiersReadParts();
    assert Text(parts)[0..] == Text(parts);
    TextStands(Text(parts), 0, f, parts);
    ParserReadsOn(Modifiers(), Text(parts));
    PartsRead(Parser(Modifiers(), Text(parts)), Text(parts), 0, f, parts);
  }

  // ------------------------------------------------------------------
  // The order does not matter.

  lemma Commute(f: Fields, p: Part, q: Part)
    requires Printable(p) && Printable(q) && Free(f, p) && Free(Apply(f, p), q)
    ensures Free(f, q) && Free(Apply(f, q), p) && Apply(Apply(f, q), p) == Apply(Apply(f, p), q)
  {
  }

  function Without(parts: seq<Part>, k: nat): seq<Part>
    requires k < |parts|
  {
    parts[..k] + parts[k + 1..]
  }

  lemma FitsFirst(f: Fields, p: Part, rest: seq<Part>)
    ensures Fits(f, [p] + rest) <==> Printable(p) && Free(f, p) && Fits(Apply(f, p), rest)
    ensures Fits(f, [p] + rest) ==> ApplyAll(f, [p] + rest) == ApplyAll(Apply(f, p), rest)
  {
    assert ([p] + rest)[1..] == rest;
  }

  lemma WithoutLater(parts: seq<Part>, k: nat)
    requires 0 < k < |parts|
    ensures Without(parts, k) == [parts[0]] + Without(parts[1..], k - 1)
  {
  }

  lemma FirstTwo(f: Fields, p: Part, q: Part, rest: seq<Part>)
    requires Printable(p) && Free(f, p) && Fits(Apply(f, p), [q] + rest)
    ensures Fits(f, [q] + ([p] + rest))
    ensures ApplyAll(f, [q] + ([p] + rest)) == ApplyAll(Apply(f, p), [q] + rest)
  {
    FitsFirst(Apply(f, p), q, rest);
    Commute(f, p, q);
    FitsFirst(Apply(f, q), p, rest);
    FitsFirst(f, q, [p] + rest);
  }

  lemma {:induction false} MoveToFront(f: Fields, parts: seq<Part>, k: nat)
    requires k < |parts| && Fits(f, parts)
    ensures Fits(f, [parts[k]] + Without(parts, k))
    ensures ApplyAll(f, [parts[k]] + Without(parts, k)) == ApplyAll(f, parts)
    decreases k
  {
    if k == 0 {
      assert [parts[0]] + Without(parts, 0) == parts;
    } else {
      MoveToFront(Apply(f, parts[0]), parts[1..], k - 1);
      FirstTwo(f, parts[0], parts[k], Without(parts[1..], k - 1));
      WithoutLater(parts, k);
    }
  }

  lemma {:induction false} OrderFree(f: Fields, parts: seq<Part>, other: seq<Part>)
    requires Fits(f, parts) && multiset(parts) == multiset(other)
    ensures Fits(f, other) && ApplyAll(f, other) == ApplyAll(f, parts)
    decreases |parts|
  {
    if other == [] {
      assert |multiset(parts)| == 0;
      assert parts == [];
    } else {
      assert other[0] in multiset(other);
      assert other[0] in parts;
      var k :| 0 <= k < |parts| && parts[k] == other[0];
      MoveToFront(f, parts, k);
      FitsFirst(f, other[0], Without(parts, k));
      SameRest(parts, k, other);
      OrderFree(Apply(f, other[0]), Without(parts, k), other[1..]);
    }
  }

  lemma SameRest(parts: seq<Part>, k: nat, other: seq<Part>)
    requires k < |parts| && other != [] && parts[k] == other[0] && multiset(parts) == multiset(other)
    ensures multiset(Without(parts, k)) == multiset(other[1..])
  {
    assert parts == parts[..k] + [parts[k]] + parts[k + 1..];
    assert other == [other[0]] + other[1..];
    assert multiset(parts) == multiset(Without(parts, k)) + multiset{parts[k]};
    assert multiset(other) == multiset(other[1..]) + multiset{other[0]};
    var a, b := multiset(Without(parts, k)), multiset(other[1..]);
    assert a == a + multiset{parts[k]} - multiset{parts[k]};
    assert b == b + multiset{parts[k]} - multiset{parts[k]};
  }

  // ------------------------------------------------------------------
  // Every specifier can be written.

  lemma {:induction false} ReadDigitsAppend(s: string, c: char, n: Option<nat>)
    requires AllDecimal(s) && IsDigit(c)
    ensures AllDecimal(s + [c]) && ReadDigits(s + [c], n) == WithDigit(ReadDigits(s, n), c)
    decreases |s|
  {
    if s == "" {
      assert ([] + [c])[1..] == "";
    } else {
      assert (s + [c])[1..] == s[1..] + [c];
      ReadDigitsAppend(s[1..], c, WithDigit(n, s[0]));
    }
  }

  lemma {:induction false} NumeralDigits(n: nat)
    requires n < TWO_64
    ensures AllDecimal(Numeral(n, 10, false)) && ReadDigits(Numeral(n, 10, false), None) == Some(n)
  {
    if n < 10 {
      assert Numeral(n, 10, false)[1..] == "";
    } else {
      NumeralDigits(n / 10);
      ReadDigitsAppend(Numeral(n / 10, 10, false), DigitChar(n % 10, false), None);
      assert n / 10 * 10 + n % 10 == n;
    }
  }

  /** The types that a specifier can have. */
  predicate IsKind(c: char) {
    IsTypeLetter(c) || c == 'z' || c == 'Z' || c == 'y' || c == 'Y'
  }

  function KindName(kind: Option<char>): string {
    if kind.None? then ""
    else
      match kind.value
      case 'z' => "lL"
      case 'Z' => "Ll"
      case 'y' => "tT"
      case 'Y' => "Tt"
      case c => [c]
  }

  lemma KindNamed(kind: Option<char>)
    requires kind.Some? ==> IsKind(kind.value)
    ensures KindText(KindName(kind)) && KindOf(KindName(kind)) == kind
  {
  }

  /** The fields that the parser can give for the specifier at position `index`. */
  predicate IsSpecifier(f: Fields, index: nat) {
    && (f.name.Some? ==> Identifier(f.name.value) && !f.indexed)
    && (if f.indexed then f.index < TWO_64 else f.index == index)
    && (f.width.Some? ==> f.width.value < TWO_64)
    && (f.frac.Some? ==> f.frac.value < TWO_64)
    && (f.xwidth.Some? ==> f.xwidth.value < TWO_64)
    && (f.kind.Some? ==> IsKind(f.kind.value))
    && (!f.typed ==> !f.sign && f.width.None? && f.frac.None? && f.kind.None?)
  }

  function Decimal(n: Option<nat>): string {
    if n.None? then "" else Numeral(n.value, 10, false)
  }

  function WherePart(f: Fields): Option<Part> {
    if f.name.Some? then Some(NamePart(f.name.value))
    else if f.indexed then Some(IndexPart(Decimal(Some(f.index))))
    else None
  }

  function LeftPart(f: Fields): Option<Part> {
    if f.lpad.Some? then Some(PadPart(true, f.lpad.value)) else None
  }

  function RightPart(f: Fields): Option<Part> {
    if f.rpad.Some? then Some(PadPart(false, f.rpad.value)) else None
  }

  function AlignedPart(f: Fields): Option<Part> {
    if f.align != NoAlign then Some(AlignPart(f.align)) else None
  }

  function WidthPart(f: Fields): Option<Part> {
    if f.xwidth.Some? then Some(ExtraPart(Decimal(f.xwidth))) else None
  }

  function KindPart(f: Fields): Option<Part> {
    if !f.typed then None
    else
      var frac := if f.frac.None? then None else Some(Decimal(f.frac));
      Some(TypePart(f.sign, Decimal(f.width), frac, KindName(f.kind)))
  }

  function Consed(o: Option<Part>, rest: seq<Part>): seq<Part> {
    if o.Some? then [o.value] + rest else rest
  }

  function Tail(f: Fields): seq<Part> {
    Consed(AlignedPart(f), Consed(WidthPart(f), Consed(KindPart(f), [])))
  }

  /** The modifiers of a specifier. */
  function PartsOf(f: Fields): seq<Part> {
    Consed(WherePart(f), Consed(LeftPart(f), Consed(RightPart(f), Tail(f))))
  }

  /** The modifiers `parts`, applied to `f`, give `g`. */
  predicate Gives(f: Fields, parts: seq<Part>, g: Fields) {
    Fits(f, parts) && ApplyAll(f, parts) == g
  }

  lemma ConsedGives(f: Fields, o: Option<Part>, rest: seq<Part>, g: Fields)
    requires o.Some? ==> Printable(o.value) && Free(f, o.value)
    requires Gives(if o.Some? then Apply(f, o.value) else f, rest, g)
    ensures Gives(f, Consed(o, rest), g)
  {
    if o.Some? {
      assert ([o.value] + rest)[1..] == rest;
    }
  }

  lemma DecimalRead(n: Option<nat>)
    requires n.Some? ==> n.value < TWO_64
    ensures AllDecimal(Decimal(n)) && ReadDigits(Decimal(n), None) == n && (n.Some? ==> Decimal(n) != "")
  {
    if n.Some? {
      NumeralDigits(n.value);
    }
  }

  lemma KindPartGives(f: Fields, index: nat)
    requires IsSpecifier(f, index)
    ensures var g := f.(typed := false, sign := false, width := None, frac := None, kind := None);
      Gives(g, Consed(KindPart(f), []), f)
  {
    DecimalRead(f.width);
    DecimalRead(f.frac);
    KindNamed(f.kind);
    var g := f.(typed := false, sign := false, width := None, frac := None, kind := None);
    ConsedGives(g, KindPart(f), [], f);
  }

  /** The fields without the extra width, the alignment and the type. */
  function Head(f: Fields): Fields {
    f.(align := NoAlign, xwidth := None, typed := false, sign := false, width := None, frac := None, kind := None)
  }

  lemma TailGives(f: Fields, index: nat)
    requires IsSpecifier(f, index)
    ensures Gives(Head(f), Tail(f), f)
  {
    DecimalRead(f.xwidth);
    KindPartGives(f, index);
    ConsedGives(Head(f).(align := f.align), WidthPart(f), Consed(KindPart(f), []), f);
    ConsedGives(Head(f), AlignedPart(f), Consed(WidthPart(f), Consed(KindPart(f), [])), f);
  }

  lemma PadsGive(f: Fields, index: nat)
    requires IsSpecifier(f, index)
    ensures Gives(Head(f).(lpad := None, rpad := None), Consed(LeftPart(f), Consed(RightPart(f), Tail(f))), f)
  {
    TailGives(f, index);
    ConsedGives(Head(f).(rpad := None), RightPart(f), Tail(f), f);
    ConsedGives(Head(f).(lpad := None, rpad := None), LeftPart(f), Consed(RightPart(f), Tail(f)), f);
  }

  lemma PartsGive(f: Fields, index: nat)
    requires IsSpecifier(f, index)
    ensures Gives(Initial(index), PartsOf(f), f)
  {
    DecimalRead(Some(f.index % TWO_64));
    PadsGive(f, index);
    ConsedGives(Initial(index), WherePart(f), Consed(LeftPart(f), Consed(RightPart(f), Tail(f))), f);
  }

  /** A buffer with the modifiers of a specifier, in any order, is parsed to exactly that
      specifier, except that a type without a kind must not come last. */
  lemma BufferRoundTrip(f: Fields, index: nat, parts: seq<Part>)
    requires IsSpecifier(f, index) && multiset(parts) == multiset(PartsOf(f))
    ensures Parse(Text(parts), 0, Initial(index)) == if EndsTypeless(parts) then None else Some(f)
  {
    PartsGive(f, index);
    OrderFree(Initial(index), PartsOf(f), parts);
    SpecifierRead(Initial(index), parts);
  }

  /** The parser gives nothing but specifiers, so every result of it can be written. */
  lemma {:induction false} ParseGivesSpecifiers(b: string, i: nat, f: Fields, index: nat)
    requires i <= |b| && IsSpecifier(f, index)
    ensures Parse(b, i, f).Some? ==> IsSpecifier(Parse(b, i, f).value, index)
    decreases |b| - i
  {
    ParseStep(b, i, f);
    if i < |b| {
      var next := ModifierAt(b, i, f);
      if next.Next? {
        ModifierGivesSpecifiers(b, i, f, index);
        ParseGivesSpecifiers(b, next.i, next.f, index);
      }
    }
  }

  lemma {:induction false} NumberBelow(b: string, i: nat, n: Option<nat>)
    requires i <= |b| && (n.Some? ==> n.value < TWO_64)
    ensures var r := Number(b, i, n).0; r.Some? ==> r.value < TWO_64
    decreases |b| - i
  {
    if i < |b| && IsDigit(b[i]) {
      NumberBelow(b, i + 1, WithDigit(n, b[i]));
    }
  }

  lemma NameGivesSpecifiers(b: string, i: nat, f: Fields, index: nat)
    requires i <= |b| && IsSpecifier(f, index) && NameAt(b, i, f).Next?
    ensures IsSpecifier(NameAt(b, i, f).f, index)
  {
    var next := SkipIdentifier(b, i + 1);
    var name := b[i..next];
    assert forall k :: 0 <= k < |name| ==> name[k] == b[i + k];
    assert Identifier(name);
  }

  lemma KindGivesSpecifiers(b: string, i: nat, f: Fields, index: nat)
    requires i <= |b| && IsSpecifier(f, index) && f.typed && KindAt(b, i, f).Next?
    ensures IsSpecifier(KindAt(b, i, f).f, index)
  {
  }

  lemma FractionGivesSpecifiers(b: string, i: nat, f: Fields, index: nat)
    requires i <= |b| && IsSpecifier(f, index) && f.typed && FractionAt(b, i, f).Next?
    ensures IsSpecifier(FractionAt(b, i, f).f, index)
  {
    if CharIs(b, i, '.') {
      var (n, j) := Number(b, i + 1, f.frac);
      NumberBelow(b, i + 1, f.frac);
      KindGivesSpecifiers(b, j, f.(frac := n), index);
    } else {
      KindGivesSpecifiers(b, i, f, index);
    }
  }

  lemma TypeGivesSpecifiers(b: string, i: nat, f: Fields, index: nat)
    requires i <= |b| && IsSpecifier(f, index) && TypeAt(b, i, f).Next?
    ensures IsSpecifier(TypeAt(b, i, f).f, index)
  {
    var plus := CharIs(b, i, '+');
    var start := if plus then i + 1 else i;
    var (n, j) := Number(b, start, f.width);
    NumberBelow(b, start, f.width);
    FractionGivesSpecifiers(b, j, f.(typed := true, sign := f.sign || plus, width := n), index);
  }

  lemma IndexGivesSpecifiers(b: string, i: nat, f: Fields, index: nat)
    requires i <= |b| && IsSpecifier(f, index) && IndexAt(b, i, f).Next?
    ensures IsSpecifier(IndexAt(b, i, f).f, index)
  {
    NumberBelow(b, i, None);
  }

  lemma ExtraGivesSpecifiers(b: string, i: nat, f: Fields, index: nat)
    requires i <= |b| && IsSpecifier(f, index) && ExtraAt(b, i, f).Next?
    ensures IsSpecifier(ExtraAt(b, i, f).f, index)
  {
    NumberBelow(b, i, f.xwidth);
  }

  lemma OtherGivesSpecifiers(b: string, i: nat, f: Fields, left: bool, index: nat)
    requires i <= |b| && IsSpecifier(f, index)
    ensures PadAt(b, i, f, left).Next? ==> IsSpecifier(PadAt(b, i, f, left).f, index)
    ensures forall c :: AlignAt(c, b, i, f).Next? ==> IsSpecifier(AlignAt(c, b, i, f).f, index)
  {
  }

  lemma ModifierGivesSpecifiers(b: string, i: nat, f: Fields, index: nat)
    requires i < |b| && IsSpecifier(f, index) && ModifierAt(b, i, f).Next?
    ensures IsSpecifier(ModifierAt(b, i, f).f, index)
  {
    var p := ModifierAt(b, i, f);
    if b[i] == '@' {
      assert p == NameAt(b, i + 1, f);
      NameGivesSpecifiers(b, i + 1, f, index);
    } else if b[i] == '[' {
      assert p == IndexAt(b, i + 1, f);
      IndexGivesSpecifiers(b, i + 1, f, index);
    } else if b[i] == ':' {
      assert p == ExtraAt(b, i + 1, f);
      ExtraGivesSpecifiers(b, i + 1, f, index);
    } else if b[i] == '%' {
      assert p == TypeAt(b, i + 1, f);
      TypeGivesSpecifiers(b, i + 1, f, index);
    } else if b[i] == '^' || b[i] == '$' {
      assert p == PadAt(b, i + 1, f, b[i] == '^');
      OtherGivesSpecifiers(b, i + 1, f, b[i] == '^', index);
    } else {
      assert p == AlignAt(b[i], b, i + 1, f);
      OtherGivesSpecifiers(b, i + 1, f, true, index);
    }
  }

  /** "%5" is malformed, and so is ":9%5"; "%5:9", the same modifiers in the other order, is not. */
  lemma TypelessLast(index: nat)
    ensures var width, extra := TypePart(false, "5", None, ""), ExtraPart("9");
      && Parse(Text([width]), 0, Initial(index)).None?
      && Parse(Text([extra, width]), 0, Initial(index)).None?
      && Parse(Text([width, extra]), 0, Initial(index)).Some?
  {
    var f, width, extra := Initial(index), TypePart(false, "5", None, ""), ExtraPart("9");
    FitsFirst(f, width, []);
    FitsFirst(Apply(f, extra), width, []);
    FitsFirst(f, extra, [width]);
    FitsFirst(Apply(f, width), extra, []);
    FitsFirst(f, width, [extra]);
    SpecifierRead(f, [width]);
    SpecifierRead(f, [extra, width]);
    SpecifierRead(f, [width, extra]);
  }
}
