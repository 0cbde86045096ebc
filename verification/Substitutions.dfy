/** Substitutions in string templates, as functions: `parse_substitution` of
    src/main/expr/Expression.cpp with `parse_identifier` of src/main/expr/parser.cpp. */
module Substitutions {
  import opened Basics
  import opened Names
  import opened Evaluator
  import opened Lexing
  import opened TokenStream
  import T = Templates

  /** `TF_GET | TF_XSIGN`. */
  const TF_SIGN := Flags(true, false, false)

  /** A reader of tokens whose words can be names and whose brackets are not empty. */
  ghost predicate Scans(read: Reader) {
    && Advances(read)
    && forall flags: Flags, t: string, o: nat {:trigger read(flags, t, o)} ::
      o <= |t| ==>
        && (read(flags, t, o).kind == Bareword ==> NulFree(read(flags, t, o).text))
        && (read(flags, t, o).kind == LQBrace ==> read(flags, t, o).next > o)
  }

  type Scanner = read: Reader | Scans(read)
    ghost witness (flags: Flags, t: string, o: nat) => Lexeme(EOF, "", 0, |t|, false)

  lemma BarewordNulFree(kw: Keywords, flags: Flags, t: string, o: nat)
    requires o <= |t| && Lex(kw, flags, t, o).kind == Bareword
    ensures NulFree(Lex(kw, flags, t, o).text)
  {
    var start, x := SkipSpace(t, o), Lex(kw, flags, t, o);
    BarewordIsWord(kw, flags, t, start);
    assert x.text == t[start..SkipIdentifier(t, start + 1)];
    forall i | 0 <= i < |x.text| ensures x.text[i] != '\0' {
      assert x.text[i] == t[start + i];
    }
  }

  lemma BarewordIsWord(kw: Keywords, flags: Flags, t: string, o: nat)
    requires o < |t| && TokenAt(kw, flags, t, o).kind == Bareword
    ensures IsIdentifierFirst(t[o]) && TokenAt(kw, flags, t, o) == WordAt(kw, flags, t, o)
  {
    if t[o] == '\'' {
      StringsKind(t, o);
    } else if !IsIdentifierFirst(t[o]) && !SingleSymbol(t[o]).Some? && !PairSymbol(t[o]).Some?
      && t[o] != '#' && t[o] != '@' && t[o] != '<' && t[o] != ':'
    {
      NumberWritten(t, o);
    }
  }

  lemma BracketMoves(kw: Keywords, flags: Flags, t: string, o: nat)
    requires o <= |t| && Lex(kw, flags, t, o).kind == LQBrace
    ensures Lex(kw, flags, t, o).next > o
  {
    TokenWritten(kw, flags, t, SkipSpace(t, o));
  }

  lemma LexerScans(kw: Keywords)
    ensures IsLexer(Lexer(kw), kw) && Scans(Lexer(kw))
  {
    LexerIsLexer(kw);
    var read := Lexer(kw);
    forall flags: Flags, t: string, o: nat | o <= |t|
      ensures read(flags, t, o).kind == Bareword ==> NulFree(read(flags, t, o).text)
      ensures read(flags, t, o).kind == LQBrace ==> read(flags, t, o).next > o
    {
      assert read(flags, t, o) == Lex(kw, flags, t, o);
      if read(flags, t, o).kind == Bareword {
        BarewordNulFree(kw, flags, t, o);
      } else if read(flags, t, o).kind == LQBrace {
        BracketMoves(kw, flags, t, o);
      }
    }
  }

  /** The tokenizer with a table of keywords. */
  function ScannerOf(kw: Keywords): Scanner {
    LexerScans(kw);
    Lexer(kw)
  }

  lemma ScannerIsLexer(kw: Keywords)
    ensures IsLexer(ScannerOf(kw), kw)
  {
    LexerScans(kw);
  }

  /** An expression, the token that ended it, and the offset behind that token. */
  datatype Parsing = Parsed(tree: Expr, stop: Kind, next: nat) | Failed(status: Failure)

  ghost predicate Sound(g: (string, nat) -> Parsing) {
    forall t: string, i: nat {:trigger g(t, i)} :: i <= |t| && g(t, i).Parsed? ==> i <= g(t, i).next <= |t|
  }

  /** The grammar of expressions: what it reads from an offset on. */
  type Grammar = g: (string, nat) -> Parsing | Sound(g)
    ghost witness (t: string, i: nat) => Parsing.Failed(BadToken)

  /** One index, from behind its opening bracket: a word that names a variable, or an expression. */
  function IndexAt(read: Scanner, g: Grammar, t: string, i: nat): (r: T.SubResult)
    requires i <= |t|
    ensures r.Parsed? ==> i <= r.next <= |t|
  {
    var x := read(TF_GET, t, i);
    if x.kind != Bareword then
      match g(t, i)
      case Failed(status) => T.Failed(status)
      case Parsed(tree, stop, next) => if stop == RQBrace then T.Parsed(tree, next) else T.Failed(BadToken)
    else
      var y := read(TF_GET, t, x.next);
      if y.kind == RQBrace then T.Parsed(Resolve(x.text, []), y.next) else T.Failed(BadToken)
  }

  /** The indexes behind a name, which has the indexes `items` already. */
  function IndexesAt(read: Scanner, g: Grammar, t: string, i: nat, name: Name, items: seq<Expr>): (r: Parsing)
    requires i <= |t|
    ensures r.Parsed? ==> i <= r.next <= |t|
    decreases |t| - i
  {
    var x := read(TF_SIGN, t, i);
    if x.kind != LQBrace then Parsed(Resolve(name, items), x.kind, x.next)
    else
      match IndexAt(read, g, t, x.next)
      case Failed(status) => Failed(status)
      case Parsed(item, next) => IndexesAt(read, g, t, next, name, items + [item])
  }

  /** A name with its indexes, or an expression that starts with another token. */
  function OperandAt(read: Scanner, g: Grammar, t: string, i: nat): (r: Parsing)
    requires i <= |t|
    ensures r.Parsed? ==> i <= r.next <= |t|
  {
    var x := read(TF_GET, t, i);
    if x.kind != Bareword then g(t, i) else IndexesAt(read, g, t, x.next, x.text, [])
  }

  function SubstitutionAt(read: Scanner, g: Grammar, t: string, i: nat): (r: T.SubResult)
    requires i <= |t|
    ensures r.Parsed? ==> i <= r.next <= |t|
  {
    match OperandAt(read, g, t, i)
    case Failed(status) => T.Failed(status)
    case Parsed(tree, stop, next) =>
      if stop == RCBrace then T.Parsed(tree, next)
      else T.Failed(if stop == EOF then EndOfFile else BadToken)
  }

  /** The parser of substitutions. */
  function Substitution(kw: Keywords, g: Grammar): T.SubParser {
    (t: string, i: nat) => if i <= |t| then SubstitutionAt(ScannerOf(kw), g, t, i) else T.Failed(BadToken)
  }

  /** The function gives what the parser of substitutions reads. */
  ghost predicate Parses(sub: T.SubParser, read: Scanner, g: Grammar) {
    && T.Honest(sub)
    && forall t: string, i: nat {:trigger SubstitutionAt(read, g, t, i)} ::
      i <= |t| ==> sub(t, i) == SubstitutionAt(read, g, t, i)
  }

  lemma SubstitutionParses(kw: Keywords, g: Grammar)
    ensures IsLexer(ScannerOf(kw), kw) && Parses(Substitution(kw, g), ScannerOf(kw), g)
  {
    ScannerIsLexer(kw);
    var sub := Substitution(kw, g);
    forall t: string, i: nat | i <= |t| && sub(t, i).Parsed? ensures i <= sub(t, i).next <= |t| {
      assert sub(t, i) == SubstitutionAt(ScannerOf(kw), g, t, i);
    }
  }
}
