/** String literals as the tokenizer of src/main/expr/Tokenizer.cpp reads them. */
module StringLiterals {
  import opened Lexing
  import opened Texts

  /** What a literal writes for a part of its text: a character as it is, the escape of one, or a
      backslash with a letter that escapes nothing, which are both kept. */
  datatype Atom = Plain(c: char) | Escape(c: char) | Kept(c: char)

  /** The characters that can be escaped, and the letters that stand behind the backslash then. */
  predicate IsEscaped(c: char) {
    c in ['\\', '\'', '\n', '\t', '\r']
  }

  function EscapeLetter(c: char): char {
    match c
    case '\n' => 'n'
    case '\t' => 't'
    case '\r' => 'r'
    case _ => c
  }

  predicate IsAtom(a: Atom) {
    match a
    case Plain(c) => c != '\\' && c != '\''
    case Escape(c) => IsEscaped(c)
    case Kept(c) => c !in ['\\', '\'', 'n', 't', 'r']
  }

  predicate AreAtoms(body: seq<Atom>) {
    forall i :: 0 <= i < |body| ==> IsAtom(body[i])
  }

  function AtomSource(a: Atom): string {
    match a
    case Plain(c) => [c]
    case Escape(c) => ['\\', EscapeLetter(c)]
    case Kept(c) => ['\\', c]
  }

  function AtomText(a: Atom): string {
    match a
    case Plain(c) => [c]
    case Escape(c) => [c]
    case Kept(c) => ['\\', c]
  }

  /** What stands between the quotes. */
  function Source(body: seq<Atom>): string {
    if body == [] then "" else AtomSource(body[0]) + Source(body[1..])
  }

  function Text(body: seq<Atom>): string {
    if body == [] then "" else AtomText(body[0]) + Text(body[1..])
  }

  /** One way to write a text: every escape that there is. */
  function Quote(s: string): seq<Atom> {
    if s == "" then []
    else [if IsEscaped(s[0]) then Escape(s[0]) else Plain(s[0])] + Quote(s[1..])
  }

  function Literal(body: seq<Atom>): string {
    "'" + (Source(body) + "'")
  }

  /** A literal and the white space behind it. */
  datatype Written = Written(body: seq<Atom>, space: string)

  predicate WellWritten(w: Written) {
    match w
    case Written(body, space) => AreAtoms(body) && AllSpace(space)
  }

  predicate AllWritten(ws: seq<Written>) {
    forall i :: 0 <= i < |ws| ==> WellWritten(ws[i])
  }

  function Render(ws: seq<Written>): string {
    if ws == [] then "" else Literal(ws[0].body) + (ws[0].space + Render(ws[1..]))
  }

  /** The texts of the literals, one behind another. */
  function Together(ws: seq<Written>): string {
    if ws == [] then "" else Text(ws[0].body) + Together(ws[1..])
  }

  /** The literals end at offset `e`, where neither white space nor a quote stands. */
  predicate EndsAt(t: string, e: nat) {
    e < |t| ==> !IsSpace(t[e]) && t[e] != '\''
  }

  // ------------------------------------------------------------------

  lemma AtomRead(t: string, o: nat, a: Atom)
    requires o <= |t| && IsAtom(a) && Occurs(t, o, AtomSource(a))
    ensures var next := o + |AtomSource(a)|;
      && next <= |t|
      && QuotedAt(t, o, false)
      == (AtomText(a) + QuotedAt(t, next, false).0, QuotedAt(t, next, false).1, QuotedAt(t, next, false).2)
  {
    assert t[o] == AtomSource(a)[0];
    if !a.Plain? {
      assert t[o + 1] == AtomSource(a)[1];
      assert QuotedAt(t, o, false) == QuotedAt(t, o + 1, true);
    }
  }

  lemma {:induction false} QuotedRead(t: string, o: nat, body: seq<Atom>)
    requires o <= |t| && AreAtoms(body) && Occurs(t, o, Source(body)) && CharIs(t, o + |Source(body)|, '\'')
    ensures QuotedAt(t, o, false) == (Text(body), o + |Source(body)| + 1, true)
    decreases |body|
  {
    if body != [] {
      Split(t, o, AtomSource(body[0]), Source(body[1..]));
      AtomRead(t, o, body[0]);
      QuotedRead(t, o + |AtomSource(body[0])|, body[1..]);
    }
  }

  lemma {:induction false} QuotedUnclosed(t: string, o: nat, body: seq<Atom>)
    requires AreAtoms(body) && Occurs(t, o, Source(body)) && o + |Source(body)| == |t|
    ensures QuotedAt(t, o, false) == (Text(body), |t|, false)
    decreases |body|
  {
    if body != [] {
      Split(t, o, AtomSource(body[0]), Source(body[1..]));
      AtomRead(t, o, body[0]);
      QuotedUnclosed(t, o + |AtomSource(body[0])|, body[1..]);
    }
  }

  /** Every text can be written. */
  lemma {:induction false} QuoteWrites(s: string)
    ensures AreAtoms(Quote(s)) && Text(Quote(s)) == s
  {
    if s != "" {
      QuoteWrites(s[1..]);
      assert [s[0]] + s[1..] == s;
    }
  }

  /** The atom that a literal starts with. */
  function AtomAt(t: string, o: nat): Atom
    requires o < |t|
  {
    if t[o] != '\\' || o + 1 == |t| then Plain(t[o])
    else
      match t[o + 1]
      case '\\' => Escape('\\')
      case '\'' => Escape('\'')
      case 'n' => Escape('\n')
      case 't' => Escape('\t')
      case 'r' => Escape('\r')
      case c => Kept(c)
  }

  lemma AtomStands(t: string, o: nat)
    requires o < |t| && t[o] != '\'' && (t[o] == '\\' ==> o + 1 < |t|)
    ensures var a := AtomAt(t, o);
      && IsAtom(a) && o + |AtomSource(a)| <= |t| && t[o..o + |AtomSource(a)|] == AtomSource(a)
      && Occurs(t, o, AtomSource(a))
  {
  }

  /** Whatever is read as a closed literal is written in atoms: nothing else is a literal. */
  lemma {:induction false} LiteralsAreAtoms(t: string, o: nat) returns (body: seq<Atom>)
    requires o <= |t| && QuotedAt(t, o, false).2
    ensures AreAtoms(body) && o + |Source(body)| < |t|
    ensures t[o..o + |Source(body)| + 1] == Source(body) + "'"
    decreases |t| - o
  {
    body := [];
    if t[o] != '\'' {
      var a := AtomAt(t, o);
      AtomFirst(t, o);
      var rest := LiteralsAreAtoms(t, o + |AtomSource(a)|);
      body := [a] + rest;
      AtomBefore(t, o, a, rest);
    }
  }

  lemma AtomFirst(t: string, o: nat)
    requires o < |t| && t[o] != '\'' && (t[o] == '\\' ==> o + 1 < |t|)
    ensures var a := AtomAt(t, o);
      && IsAtom(a) && o + |AtomSource(a)| <= |t| && t[o..o + |AtomSource(a)|] == AtomSource(a)
      && QuotedAt(t, o, false).2 == QuotedAt(t, o + |AtomSource(a)|, false).2
  {
    AtomStands(t, o);
    AtomRead(t, o, AtomAt(t, o));
  }

  lemma AtomBefore(t: string, o: nat, a: Atom, rest: seq<Atom>)
    requires var next := o + |AtomSource(a)|;
      && next + |Source(rest)| < |t| && t[o..next] == AtomSource(a)
      && t[next..next + |Source(rest)| + 1] == Source(rest) + "'"
    ensures Source([a] + rest) == AtomSource(a) + Source(rest)
    ensures t[o..o + |Source([a] + rest)| + 1] == Source([a] + rest) + "'"
  {
    var next := o + |AtomSource(a)|;
    assert ([a] + rest)[1..] == rest;
    assert t[o..next + |Source(rest)| + 1] == t[o..next] + t[next..next + |Source(rest)| + 1];
  }

  lemma LiteralRead(t: string, o: nat, body: seq<Atom>)
    requires AreAtoms(body) && Occurs(t, o, Literal(body))
    ensures CharIs(t, o, '\'') && QuotedAt(t, o + 1, false) == (Text(body), o + |Literal(body)|, true)
  {
    Split(t, o, "'", Source(body) + "'");
    Split(t, o + 1, Source(body), "'");
    First(t, o, "'");
    First(t, o + 1 + |Source(body)|, "'");
    QuotedRead(t, o + 1, body);
  }

  lemma StartsWithQuote(ws: seq<Written>)
    requires ws != []
    ensures Render(ws) != "" && Render(ws)[0] == '\''
  {
    assert Literal(ws[0].body)[0] == '\'';
  }

  lemma SpaceSkipped(t: string, o: nat, ws: seq<Written>, space: string)
    requires Occurs(t, o, space) && AllSpace(space) && Occurs(t, o + |space|, Render(ws))
    requires EndsAt(t, o + |space| + |Render(ws)|)
    ensures SkipSpace(t, o) == o + |space|
  {
    if ws != [] {
      StartsWithQuote(ws);
      First(t, o + |space|, Render(ws));
    }
    SpaceEnds(t, o, space);
  }

  lemma StringsStep(t: string, o: nat, text: string, next: nat, after: nat)
    requires CharIs(t, o, '\'') && o < next <= after <= |t|
    requires QuotedAt(t, o + 1, false) == (text, next, true) && SkipSpace(t, next) == after
    ensures StringsAt(t, o) == StringsAt(t, after).(text := text + StringsAt(t, after).text)
  {
  }

  lemma RenderFirst(t: string, o: nat, ws: seq<Written>)
    requires ws != [] && Occurs(t, o, Render(ws))
    ensures var next := o + |Literal(ws[0].body)|; var after := next + |ws[0].space|;
      && Occurs(t, o, Literal(ws[0].body)) && Occurs(t, next, ws[0].space) && Occurs(t, after, Render(ws[1..]))
      && after + |Render(ws[1..])| == o + |Render(ws)|
  {
    Split(t, o, Literal(ws[0].body), ws[0].space + Render(ws[1..]));
    Split(t, o + |Literal(ws[0].body)|, ws[0].space, Render(ws[1..]));
  }

  lemma LiteralStep(t: string, o: nat, w: Written, ws: seq<Written>)
    requires WellWritten(w) && Occurs(t, o, Literal(w.body))
    requires var next := o + |Literal(w.body)|; var after := next + |w.space|;
      Occurs(t, next, w.space) && Occurs(t, after, Render(ws)) && EndsAt(t, after + |Render(ws)|)
    ensures var after := o + |Literal(w.body)| + |w.space|;
      StringsAt(t, o) == StringsAt(t, after).(text := Text(w.body) + StringsAt(t, after).text)
  {
    var next := o + |Literal(w.body)|;
    LiteralRead(t, o, w.body);
    SpaceSkipped(t, next, ws, w.space);
    StringsStep(t, o, Text(w.body), next, next + |w.space|);
  }

  lemma FirstRead(t: string, o: nat, ws: seq<Written>)
    requires ws != [] && AllWritten(ws) && Occurs(t, o, Render(ws)) && EndsAt(t, o + |Render(ws)|)
    ensures var after := o + |Literal(ws[0].body)| + |ws[0].space|;
      && after + |Render(ws[1..])| == o + |Render(ws)| && Occurs(t, after, Render(ws[1..]))
      && StringsAt(t, o) == StringsAt(t, after).(text := Text(ws[0].body) + StringsAt(t, after).text)
  {
    RenderFirst(t, o, ws);
    LiteralStep(t, o, ws[0], ws[1..]);
  }

  lemma NoLiteral(t: string, o: nat)
    requires o <= |t| && !CharIs(t, o, '\'')
    ensures StringsAt(t, o) == Lexeme(StringLiteral, "", 0, o, o < |t|)
  {
  }

  /** Adjacent literals, with any white space between them, are read as their texts together. */
  lemma {:induction false} LiteralsRead(t: string, o: nat, ws: seq<Written>)
    requires Occurs(t, o, Render(ws)) && EndsAt(t, o + |Render(ws)|)
    requires AllWritten(ws)
    ensures var e := o + |Render(ws)|; StringsAt(t, o) == Lexeme(StringLiteral, Together(ws), 0, e, e < |t|)
    decreases |ws|
  {
    if ws == [] {
      NoLiteral(t, o);
    } else {
      FirstRead(t, o, ws);
      LiteralsRead(t, o + |Literal(ws[0].body)| + |ws[0].space|, ws[1..]);
    }
  }

  /** One token for any number of literals, wherever the next token may start. */
  lemma StringsRoundTrip(kw: Keywords, flags: Flags, ws: seq<Written>, rest: string)
    requires ws != [] && (rest == "" || (!IsSpace(rest[0]) && rest[0] != '\''))
    requires AllWritten(ws)
    ensures Lex(kw, flags, Render(ws) + rest, 0) == Lexeme(StringLiteral, Together(ws), 0, |Render(ws)|, rest != "")
  {
    var t := Render(ws) + rest;
    assert Occurs(t, 0, Render(ws)) && (rest != "" ==> t[|Render(ws)|] == rest[0]);
    LiteralsRead(t, 0, ws);
    StartsWithQuote(ws);
    QuoteStartsString(kw, flags, t);
  }

  /** A literal that is not closed before the end is an error. */
  lemma UnclosedLiteral(kw: Keywords, flags: Flags, body: seq<Atom>)
    requires AreAtoms(body)
    ensures var t := "'" + Source(body); Lex(kw, flags, t, 0) == Lexeme(Error, Text(body), 0, |t|, false)
  {
    var t := "'" + Source(body);
    assert Occurs(t, 0, t);
    Split(t, 0, "'", Source(body));
    QuotedUnclosed(t, 1, body);
    assert t[0] == '\'';
    QuoteStartsString(kw, flags, t);
  }

  lemma QuoteStartsString(kw: Keywords, flags: Flags, t: string)
    requires t != "" && t[0] == '\''
    ensures Lex(kw, flags, t, 0) == StringsAt(t, 0)
  {
  }
}
