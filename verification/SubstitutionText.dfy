/** Substitutions as they are written in string templates, and what the parser of
    src/main/expr/Expression.cpp and src/main/expr/parser.cpp makes of them. */
module SubstitutionText {
  import opened Basics
  import opened Names
  import opened Evaluator
  import opened Lexing
  import opened Substitutions
  import opened Texts
  import opened TokenStream
  import T = Templates

  /** A name that is not a keyword. */
  predicate FreeName(kw: Keywords, name: string) {
    && name != "" && IsIdentifierFirst(name[0]) && kw(name).None?
    && forall i :: 1 <= i < |name| ==> IsIdentifierNext(name[i])
  }

  lemma WordTaken(kw: Keywords, t: string, o: nat, name: string)
    requires Occurs(t, o, name) && FreeName(kw, name) && (o + |name| < |t| ==> !IsIdentifierNext(t[o + |name|]))
    ensures IsIdentifierFirst(t[o]) && t[o..o + |name|] == name
    ensures WordAt(kw, TF_GET, t, o) == Taken(t, o, Bareword, 0, o + |name|)
  {
    First(t, o, name);
    IdentifierEnds(t, o + 1, name[1..]);
    assert t[o..o + |name|] == name;
  }

  lemma WordToken(kw: Keywords, t: string, i: nat, o: nat)
    requires i <= |t| && SkipSpace(t, i) == o < |t| && IsIdentifierFirst(t[o])
    ensures Lex(kw, TF_GET, t, i) == WordAt(kw, TF_GET, t, o)
  {
  }

  lemma WordLexed(kw: Keywords, t: string, i: nat, before: string, name: string)
    requires Occurs(t, i, before) && Occurs(t, i + |before|, name) && AllSpace(before) && FreeName(kw, name)
    requires var j := i + |before| + |name|; j < |t| ==> !IsIdentifierNext(t[j])
    ensures var o := i + |before|;
      t[o..o + |name|] == name && Lex(kw, TF_GET, t, i) == Taken(t, o, Bareword, 0, o + |name|)
  {
    WordTaken(kw, t, i + |before|, name);
    SpaceEnds(t, i, before);
    WordToken(kw, t, i, i + |before|);
  }

  /** A free name with white space before it is read as one word. */
  lemma WordRead(kw: Keywords, read: Scanner, t: string, i: nat, before: string, name: string)
    requires Occurs(t, i, before) && Occurs(t, i + |before|, name) && AllSpace(before)
    requires FreeName(kw, name) && IsLexer(read, kw)
    requires var j := i + |before| + |name|; j < |t| ==> !IsIdentifierNext(t[j])
    ensures var x := read(TF_GET, t, i); x.kind == Bareword && x.text == name && x.next == i + |before| + |name|
  {
    WordLexed(kw, t, i, before, name);
    assert read(TF_GET, t, i) == Lex(kw, TF_GET, t, i);
  }

  lemma SymbolLexed(kw: Keywords, flags: Flags, t: string, i: nat, o: nat, c: char)
    requires i <= |t| && SkipSpace(t, i) == o && CharIs(t, o, c) && c in {'[', ']', '}'}
    ensures var x := Lex(kw, flags, t, i); Some(x.kind) == SingleSymbol(c) && x.next == o + 1
  {
  }

  /** A bracket or a brace with white space before it is read as it is. */
  lemma SymbolRead(kw: Keywords, read: Scanner, flags: Flags, t: string, i: nat, before: string, c: char)
    requires Occurs(t, i, before) && AllSpace(before) && CharIs(t, i + |before|, c) && c in {'[', ']', '}'}
    requires IsLexer(read, kw)
    ensures var x := read(flags, t, i); Some(x.kind) == SingleSymbol(c) && x.next == i + |before| + 1
  {
    SpaceEnds(t, i, before);
    SymbolLexed(kw, flags, t, i, i + |before|, c);
    assert read(flags, t, i) == Lex(kw, flags, t, i);
  }

  /** White space, or else a bracket or a brace, ends a name. */
  lemma SymbolEndsName(t: string, i: nat, before: string, c: char)
    requires Occurs(t, i, before) && AllSpace(before) && CharIs(t, i + |before|, c) && c in {'[', ']', '}'}
    ensures i < |t| && !IsIdentifierNext(t[i])
  {
    if before != "" {
      First(t, i, before);
    }
  }

  /** An index, with the white space before its opening bracket: a word that names a variable, or
      the text of an expression. */
  datatype Index =
    | Named(lead: string, before: string, name: Name, after: string)
    | Computed(lead: string, src: string, tree: Expr)

  function IndexBody(x: Index): string {
    if x.Named? then x.before + (x.name + x.after) else x.src
  }

  function IndexText(x: Index): string {
    x.lead + ("[" + (IndexBody(x) + "]"))
  }

  function IndexTree(x: Index): Expr {
    if x.Named? then Resolve(x.name, []) else x.tree
  }

  function IndexesText(xs: seq<Index>): string {
    if xs == [] then "" else IndexText(xs[0]) + IndexesText(xs[1..])
  }

  function Trees(xs: seq<Index>): seq<Expr> {
    if xs == [] then [] else [IndexTree(xs[0])] + Trees(xs[1..])
  }

  /** Wherever the text stands before `end`, it starts with no word and the grammar reads it as the
      tree, up to that end. */
  ghost predicate ReadsExpression(read: Scanner, g: Grammar, src: string, end: char, stop: Kind, tree: Expr) {
    forall t: string, i: nat {:trigger g(t, i)} :: Occurs(t, i, src + [end]) ==>
      read(TF_GET, t, i).kind != Bareword && g(t, i) == Parsed(tree, stop, i + |src| + 1)
  }

  ghost predicate IsIndex(kw: Keywords, read: Scanner, g: Grammar, x: Index) {
    && AllSpace(x.lead)
    && match x
       case Named(_, before, name, after) => AllSpace(before) && AllSpace(after) && FreeName(kw, name)
       case Computed(_, src, tree) => ReadsExpression(read, g, src, ']', RQBrace, tree)
  }

  lemma NamedRead(kw: Keywords, read: Scanner, g: Grammar, t: string, i: nat, x: Index)
    requires IsLexer(read, kw) && x.Named? && IsIndex(kw, read, g, x)
    requires Occurs(t, i, IndexBody(x)) && CharIs(t, i + |IndexBody(x)|, ']')
    ensures IndexAt(read, g, t, i) == T.Parsed(IndexTree(x), i + |IndexBody(x)| + 1)
  {
    var j := i + |x.before|;
    Split(t, i, x.before, x.name + x.after);
    Split(t, j, x.name, x.after);
    SymbolRead(kw, read, TF_GET, t, j + |x.name|, x.after, ']');
    SymbolEndsName(t, j + |x.name|, x.after, ']');
    WordRead(kw, read, t, i, x.before, x.name);
  }

  lemma ComputedRead(kw: Keywords, read: Scanner, g: Grammar, t: string, i: nat, x: Index)
    requires x.Computed? && IsIndex(kw, read, g, x) && Occurs(t, i, x.src + "]")
    ensures IndexAt(read, g, t, i) == T.Parsed(x.tree, i + |x.src| + 1)
  {
    assert x.src + [']'] == x.src + "]";
    assert g(t, i) == Parsed(x.tree, RQBrace, i + |x.src| + 1);
  }

  lemma IndexRead(kw: Keywords, read: Scanner, g: Grammar, t: string, i: nat, x: Index)
    requires IsLexer(read, kw) && IsIndex(kw, read, g, x) && Occurs(t, i, IndexBody(x) + "]")
    ensures IndexAt(read, g, t, i) == T.Parsed(IndexTree(x), i + |IndexBody(x)| + 1)
  {
    if x.Named? {
      Split(t, i, IndexBody(x), "]");
      First(t, i + |IndexBody(x)|, "]");
      NamedRead(kw, read, g, t, i, x);
    } else {
      ComputedRead(kw, read, g, t, i, x);
    }
  }

  /** The indexes stand one behind another from offset `i` on, and then white space and a brace. */
  ghost predicate Stand(t: string, i: nat, xs: seq<Index>, after: string)
    decreases |xs|
  {
    if xs == [] then Occurs(t, i, after) && CharIs(t, i + |after|, '}')
    else Occurs(t, i, IndexText(xs[0])) && Stand(t, i + |IndexText(xs[0])|, xs[1..], after)
  }

  lemma BracketStands(t: string, i: nat, x: Index)
    requires Occurs(t, i, IndexText(x))
    ensures Occurs(t, i, x.lead) && CharIs(t, i + |x.lead|, '[') && Occurs(t, i + |x.lead| + 1, IndexBody(x) + "]")
  {
    Split(t, i, x.lead, "[" + (IndexBody(x) + "]"));
    Split(t, i + |x.lead|, "[", IndexBody(x) + "]");
    First(t, i + |x.lead|, "[");
  }

  lemma BracketRead(kw: Keywords, read: Scanner, flags: Flags, t: string, i: nat, x: Index)
    requires IsLexer(read, kw) && AllSpace(x.lead) && Occurs(t, i, IndexText(x))
    ensures var y := read(flags, t, i);
      y.kind == LQBrace && y.next == i + |x.lead| + 1 && Occurs(t, y.next, IndexBody(x) + "]")
  {
    BracketStands(t, i, x);
    SymbolRead(kw, read, flags, t, i, x.lead, '[');
  }

  lemma IndexTaken(read: Scanner, g: Grammar, t: string, i: nat, name: Name, items: seq<Expr>, item: Expr, next: nat)
    requires i <= |t| && read(TF_SIGN, t, i).kind == LQBrace
    requires IndexAt(read, g, t, read(TF_SIGN, t, i).next) == T.Parsed(item, next)
    ensures next <= |t|
    ensures IndexesAt(read, g, t, i, name, items) == IndexesAt(read, g, t, next, name, items + [item])
  {
  }

  lemma FirstIndexRead(kw: Keywords, read: Scanner, g: Grammar, t: string, i: nat, name: Name, items: seq<Expr>,
                       x: Index)
    requires IsLexer(read, kw) && IsIndex(kw, read, g, x) && Occurs(t, i, IndexText(x))
    ensures var next := i + |IndexText(x)|;
      next <= |t| && IndexesAt(read, g, t, i, name, items) == IndexesAt(read, g, t, next, name, items + [IndexTree(x)])
  {
    BracketRead(kw, read, TF_SIGN, t, i, x);
    IndexRead(kw, read, g, t, i + |x.lead| + 1, x);
    IndexTaken(read, g, t, i, name, items, IndexTree(x), i + |IndexText(x)|);
  }

  ghost predicate AreIndexes(kw: Keywords, read: Scanner, g: Grammar, xs: seq<Index>) {
    forall k :: 0 <= k < |xs| ==> IsIndex(kw, read, g, xs[k])
  }

  /** What is read behind a name at offset `i`, if the indexes `xs` stand there. */
  function AllRead(i: nat, name: Name, items: seq<Expr>, xs: seq<Index>, after: string): Parsing {
    Parsed(Resolve(name, items + Trees(xs)), RCBrace, i + |IndexesText(xs)| + |after| + 1)
  }

  lemma NoIndexRead(kw: Keywords, read: Scanner, g: Grammar, t: string, i: nat, name: Name, items: seq<Expr>,
                    after: string)
    requires IsLexer(read, kw) && AllSpace(after) && Stand(t, i, [], after)
    ensures i < |t| && IndexesAt(read, g, t, i, name, items) == AllRead(i, name, items, [], after)
  {
    SymbolRead(kw, read, TF_SIGN, t, i, after, '}');
    assert items + [] == items;
  }

  lemma OneMoreRead(i: nat, name: Name, items: seq<Expr>, xs: seq<Index>, after: string)
    requires xs != []
    ensures AllRead(i, name, items, xs, after)
         == AllRead(i + |IndexText(xs[0])|, name, items + [IndexTree(xs[0])], xs[1..], after)
  {
    assert items + Trees(xs) == items + [IndexTree(xs[0])] + Trees(xs[1..]);
  }

  /** What is read behind a name and some indexes, from an offset on. */
  type Continuation = (nat, seq<Expr>) -> Parsing

  /** It takes in every good index, and stops behind the closing brace. */
  ghost predicate ReadsOn(more: Continuation, t: string, name: Name, good: Index -> bool, after: string) {
    && (forall i: nat, items: seq<Expr>, x: Index {:trigger more(i, items), IndexText(x)} ::
          good(x) && Occurs(t, i, IndexText(x)) ==> more(i, items) == more(i + |IndexText(x)|, items + [IndexTree(x)]))
    && (forall i: nat, items: seq<Expr> {:trigger more(i, items)} ::
          Stand(t, i, [], after) ==> more(i, items) == AllRead(i, name, items, [], after))
  }

  lemma {:induction false} AllTakenIn(more: Continuation, t: string, i: nat, name: Name, items: seq<Expr>,
                                      good: Index -> bool, xs: seq<Index>, after: string)
    requires ReadsOn(more, t, name, good, after) && Stand(t, i, xs, after)
    requires forall k :: 0 <= k < |xs| ==> good(xs[k])
    ensures more(i, items) == AllRead(i, name, items, xs, after)
    decreases |xs|
  {
    if xs != [] {
      AllTakenIn(more, t, i + |IndexText(xs[0])|, name, items + [IndexTree(xs[0])], good, xs[1..], after);
      OneMoreRead(i, name, items, xs, after);
    }
  }

  function Behind(read: Scanner, g: Grammar, t: string, name: Name): Continuation
  {
    (i: nat, items: seq<Expr>) => if i <= |t| then IndexesAt(read, g, t, i, name, items) else Failed(BadToken)
  }

  lemma BehindReadsOn(kw: Keywords, read: Scanner, g: Grammar, t: string, name: Name, after: string)
    requires IsLexer(read, kw) && AllSpace(after)
    ensures ReadsOn(Behind(read, g, t, name), t, name, x => IsIndex(kw, read, g, x), after)
  {
    var more := Behind(read, g, t, name);
    forall i: nat, items: seq<Expr>, x: Index | IsIndex(kw, read, g, x) && Occurs(t, i, IndexText(x))
      ensures more(i, items) == more(i + |IndexText(x)|, items + [IndexTree(x)])
    {
      FirstIndexRead(kw, read, g, t, i, name, items, x);
    }
    forall i: nat, items: seq<Expr> | Stand(t, i, [], after)
      ensures more(i, items) == AllRead(i, name, items, [], after)
    {
      NoIndexRead(kw, read, g, t, i, name, items, after);
    }
  }

  lemma IndexesRead(kw: Keywords, read: Scanner, g: Grammar, t: string, i: nat, name: Name, xs: seq<Index>,
                    after: string)
    requires IsLexer(read, kw) && AllSpace(after) && i <= |t|
    requires Stand(t, i, xs, after) && AreIndexes(kw, read, g, xs)
    ensures Behind(read, g, t, name)(i, []) == AllRead(i, name, [], xs, after)
  {
    BehindReadsOn(kw, read, g, t, name, after);
    AllTakenIn(Behind(read, g, t, name), t, i, name, [], x => IsIndex(kw, read, g, x), xs, after);
  }

  /** Behind a name stands white space, a bracket or a brace. */
  lemma NameEnds(t: string, i: nat, xs: seq<Index>, after: string)
    requires Stand(t, i, xs, after) && AllSpace(if xs == [] then after else xs[0].lead)
    ensures i < |t| && !IsIdentifierNext(t[i])
  {
    if xs == [] {
      SymbolEndsName(t, i, after, '}');
    } else {
      BracketStands(t, i, xs[0]);
      SymbolEndsName(t, i, xs[0].lead, '[');
    }
  }

  lemma {:induction false} IndexesStand(t: string, i: nat, xs: seq<Index>, after: string)
    requires Occurs(t, i, IndexesText(xs) + (after + "}"))
    ensures Stand(t, i, xs, after)
    decreases |xs|
  {
    Split(t, i, IndexesText(xs), after + "}");
    if xs == [] {
      Split(t, i, after, "}");
      First(t, i + |after|, "}");
    } else {
      var rest := IndexesText(xs[1..]) + (after + "}");
      assert IndexesText(xs) + (after + "}") == IndexText(xs[0]) + rest;
      Split(t, i, IndexText(xs[0]), rest);
      IndexesStand(t, i + |IndexText(xs[0])|, xs[1..], after);
    }
  }

  /** A name and its indexes, with the white space before the name and before the closing brace. */
  datatype Reference = Reference(before: string, name: Name, xs: seq<Index>, after: string)

  function ReferenceText(r: Reference): string {
    r.before + (r.name + (IndexesText(r.xs) + (r.after + "}")))
  }

  function ReferenceTree(r: Reference): Expr {
    Resolve(r.name, Trees(r.xs))
  }

  ghost predicate IsReference(kw: Keywords, read: Scanner, g: Grammar, r: Reference) {
    match r
    case Reference(before, name, xs, after) =>
      AllSpace(before) && AllSpace(after) && FreeName(kw, name) && AreIndexes(kw, read, g, xs)
  }

  /** The pieces of a reference stand one behind another. */
  ghost predicate Laid(t: string, i: nat, r: Reference) {
    match r
    case Reference(before, name, xs, after) =>
      && Occurs(t, i, before) && Occurs(t, i + |before|, name)
      && Stand(t, i + |before| + |name|, xs, after)
  }

  function NameEnd(i: nat, r: Reference): nat {
    i + |r.before| + |r.name|
  }

  lemma ReferenceLaid(t: string, i: nat, r: Reference)
    requires Occurs(t, i, ReferenceText(r))
    ensures Laid(t, i, r)
  {
    Split(t, i, r.before, r.name + (IndexesText(r.xs) + (r.after + "}")));
    Split(t, i + |r.before|, r.name, IndexesText(r.xs) + (r.after + "}"));
    IndexesStand(t, NameEnd(i, r), r.xs, r.after);
  }

  /** The next token is a word, the name, which ends at offset `j`. */
  predicate FirstWord(read: Scanner, t: string, i: nat, name: Name, j: nat) {
    match read(TF_GET, t, i)
    case Lexeme(kind, text, _, next, _) => i <= |t| && kind == Bareword && text == name && next == j
  }

  lemma WordSubstitution(read: Scanner, g: Grammar, t: string, i: nat, name: Name, j: nat, p: Parsing)
    requires FirstWord(read, t, i, name, j) && Behind(read, g, t, name)(j, []) == p && p.Parsed? && p.stop == RCBrace
    ensures SubstitutionAt(read, g, t, i) == T.Parsed(p.tree, p.next)
  {
  }

  lemma ReferenceLength(i: nat, r: Reference)
    ensures Rest(i, r) == Parsed(ReferenceTree(r), RCBrace, i + |ReferenceText(r)|)
  {
    assert [] + Trees(r.xs) == Trees(r.xs);
  }

  lemma NameFirst(kw: Keywords, read: Scanner, g: Grammar, t: string, i: nat, r: Reference)
    requires IsLexer(read, kw) && IsReference(kw, read, g, r) && Laid(t, i, r)
    ensures FirstWord(read, t, i, r.name, NameEnd(i, r))
  {
    NameEnds(t, NameEnd(i, r), r.xs, r.after);
    WordRead(kw, read, t, i, r.before, r.name);
  }

  /** What is read behind the name. */
  function Rest(i: nat, r: Reference): Parsing {
    AllRead(NameEnd(i, r), r.name, [], r.xs, r.after)
  }

  lemma RestRead(kw: Keywords, read: Scanner, g: Grammar, t: string, i: nat, r: Reference)
    requires IsLexer(read, kw) && IsReference(kw, read, g, r) && Laid(t, i, r)
    ensures Behind(read, g, t, r.name)(NameEnd(i, r), []) == Rest(i, r)
  {
    NameEnds(t, NameEnd(i, r), r.xs, r.after);
    IndexesRead(kw, read, g, t, NameEnd(i, r), r.name, r.xs, r.after);
  }

  lemma LaidRead(kw: Keywords, read: Scanner, g: Grammar, t: string, i: nat, r: Reference)
    requires IsLexer(read, kw) && IsReference(kw, read, g, r) && Laid(t, i, r)
    ensures i <= |t| && SubstitutionAt(read, g, t, i) == T.Parsed(Rest(i, r).tree, Rest(i, r).next)
  {
    NameFirst(kw, read, g, t, i, r);
    RestRead(kw, read, g, t, i, r);
    WordSubstitution(read, g, t, i, r.name, NameEnd(i, r), Rest(i, r));
  }

  lemma ReferenceRead(kw: Keywords, read: Scanner, g: Grammar, t: string, i: nat, r: Reference)
    requires IsLexer(read, kw) && IsReference(kw, read, g, r) && Occurs(t, i, ReferenceText(r))
    ensures SubstitutionAt(read, g, t, i) == T.Parsed(ReferenceTree(r), i + |ReferenceText(r)|)
  {
    ReferenceLaid(t, i, r);
    LaidRead(kw, read, g, t, i, r);
    ReferenceLength(i, r);
  }

  lemma SpaceToEnd(t: string, o: nat)
    requires o <= |t| && forall k :: o <= k < |t| ==> IsSpace(t[k])
    ensures SkipSpace(t, o) == |t|
    decreases |t| - o
  {
    if o < |t| {
      SpaceToEnd(t, o + 1);
    }
  }

  lemma StopBehindName(read: Scanner, g: Grammar, t: string, i: nat, name: Name, j: nat)
    requires FirstWord(read, t, i, name, j) && j <= |t|
    requires read(TF_SIGN, t, j).kind != LQBrace && read(TF_SIGN, t, j).kind != RCBrace
    ensures SubstitutionAt(read, g, t, i) == T.Failed(if read(TF_SIGN, t, j).kind == EOF then EndOfFile else BadToken)
  {
  }

  lemma NameMisplaced(kw: Keywords, read: Scanner, g: Grammar, t: string, i: nat, before: string, name: string)
    requires Occurs(t, i, before) && Occurs(t, i + |before|, name) && AllSpace(before) && FreeName(kw, name)
    requires var j := i + |before| + |name|;
      && (j < |t| ==> !IsIdentifierNext(t[j]))
      && Lex(kw, TF_SIGN, t, j).kind != LQBrace && Lex(kw, TF_SIGN, t, j).kind != RCBrace
    requires IsLexer(read, kw)
    ensures SubstitutionAt(read, g, t, i)
         == T.Failed(if Lex(kw, TF_SIGN, t, i + |before| + |name|).kind == EOF then EndOfFile else BadToken)
  {
    var j := i + |before| + |name|;
    WordRead(kw, read, t, i, before, name);
    assert read(TF_SIGN, t, j) == Lex(kw, TF_SIGN, t, j);
    StopBehindName(read, g, t, i, read(TF_GET, t, i).text, j);
  }

  /** The end of the input behind a name that is not closed, with white space or without, is
      reported as such. */
  lemma NameUnclosed(kw: Keywords, g: Grammar, t: string, i: nat, before: string, name: string)
    requires Occurs(t, i, before) && Occurs(t, i + |before|, name) && AllSpace(before) && FreeName(kw, name)
    requires forall k :: i + |before| + |name| <= k < |t| ==> IsSpace(t[k])
    ensures SubstitutionAt(ScannerOf(kw), g, t, i) == T.Failed(EndOfFile)
  {
    ScannerIsLexer(kw);
    SpaceToEnd(t, i + |before| + |name|);
    NameMisplaced(kw, ScannerOf(kw), g, t, i, before, name);
  }

  lemma ExpressionRead(read: Scanner, g: Grammar, t: string, i: nat, src: string, tree: Expr)
    requires ReadsExpression(read, g, src, '}', RCBrace, tree)
    requires Occurs(t, i, src + "}")
    ensures SubstitutionAt(read, g, t, i) == T.Parsed(tree, i + |src| + 1)
  {
    assert src + ['}'] == src + "}";
    assert g(t, i) == Parsed(tree, RCBrace, i + |src| + 1);
  }

  lemma StandingOccurs(src: string, t: string, i: nat)
    requires T.StandsAt(src, t, i)
    ensures i <= |t| && Occurs(t, i, src)
  {
    assert forall k {:trigger src[k]} :: 0 <= k < |src| ==> t[i..][k] == src[k];
  }

  // ------------------------------------------------------------------
  // Templates of texts, names and expressions.

  /** Literal text, a name with its indexes between braces, or an expression between braces. */
  datatype Part =
    | Text(s: string)
    | Variable(r: Reference)
    | Expression(src: string, tree: Expr)

  ghost predicate Fits(kw: Keywords, g: Grammar, p: Part) {
    match p
    case Text(_) => true
    case Variable(r) => IsReference(kw, ScannerOf(kw), g, r)
    case Expression(src, tree) => ReadsExpression(ScannerOf(kw), g, src, '}', RCBrace, tree)
  }

  function SegmentOf(p: Part): T.Segment {
    match p
    case Text(s) => T.Text(s)
    case Variable(r) => T.Subst(ReferenceText(r), ReferenceTree(r))
    case Expression(src, tree) => T.Subst(src + "}", tree)
  }

  function Segments(ps: seq<Part>): (r: seq<T.Segment>)
    ensures |r| == |ps|
  {
    if ps == [] then [] else [SegmentOf(ps[0])] + Segments(ps[1..])
  }

  lemma PartRead(kw: Keywords, read: Scanner, g: Grammar, sub: T.SubParser, p: Part, t: string, i: nat)
    requires IsLexer(read, kw) && read == ScannerOf(kw) && Parses(sub, read, g) && Fits(kw, g, p)
    requires !p.Text? && i <= |t| && Occurs(t, i, SegmentOf(p).src)
    ensures sub(t, i) == T.Parsed(SegmentOf(p).tree, i + |SegmentOf(p).src|)
  {
    assert sub(t, i) == SubstitutionAt(read, g, t, i);
    if p.Variable? {
      ReferenceRead(kw, read, g, t, i, p.r);
    } else {
      ExpressionRead(read, g, t, i, p.src, p.tree);
    }
  }

  /** A name with any number of indexes, with white space anywhere between, is read as the variable
      of that name with those indexes, wherever it stands in a template; an expression that the
      grammar reads up to the closing brace is read as its tree. */
  lemma PartReads(kw: Keywords, g: Grammar, p: Part)
    requires Fits(kw, g, p) && !p.Text?
    ensures T.ReadsAs(Substitution(kw, g), SegmentOf(p).src, SegmentOf(p).tree)
  {
    SubstitutionParses(kw, g);
    var src, sub := SegmentOf(p).src, Substitution(kw, g);
    forall t: string, i: nat | T.StandsAt(src, t, i) ensures sub(t, i) == T.Parsed(SegmentOf(p).tree, i + |src|) {
      StandingOccurs(src, t, i);
      PartRead(kw, ScannerOf(kw), g, sub, p, t, i);
    }
  }

  lemma {:induction false} SegmentsRead(kw: Keywords, g: Grammar, ps: seq<Part>)
    requires forall i :: 0 <= i < |ps| ==> Fits(kw, g, ps[i])
    ensures T.Reads(Substitution(kw, g), Segments(ps))
    decreases |ps|
  {
    if ps != [] {
      if !ps[0].Text? {
        PartReads(kw, g, ps[0]);
      }
      assert Segments(ps)[1..] == Segments(ps[1..]);
      SegmentsRead(kw, g, ps[1..]);
    }
  }

  /** A template of texts, names with indexes and expressions, over any environment: one of them
      alone gives its value, anything else the texts and the values as text from left to right, up
      to the first failure. */
  lemma NamedTemplate<S>(ops: Ops, bound: bool, kw: Keywords, g: Grammar, ps: seq<Part>,
                         s: S, step: (S, Query) -> (Outcome, S))
    requires forall i :: 0 <= i < |ps| ==> Fits(kw, g, ps[i])
    ensures T.Honest(Substitution(kw, g))
    ensures var segs := Segments(ps);
      var r := T.Compile(Substitution(kw, g), T.Render(segs), 0);
      r.Ok? && Eval(ops, bound, r.value, s, step) == T.SegmentsMeaning(ops, bound, segs, s, step)
  {
    SubstitutionParses(kw, g);
    SegmentsRead(kw, g, ps);
    T.TemplateMeaning(ops, bound, Substitution(kw, g), Segments(ps), s, step);
  }
}
