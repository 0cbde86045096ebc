/** The parser of substitutions on the tokenizer: `parse_string` and `parse_substitution` of
    src/main/expr/Expression.cpp with `parse_identifier` of src/main/expr/parser.cpp. */
module SubstitutionParser {
  import opened Basics
  import opened Names
  import opened Evaluator
  import opened Lexing
  import opened Tokenizers
  import opened TokenStream
  import opened Substitutions
  import T = Templates

  /** The next token, and its text if it is a word. */
  method ReadWord(tz: Tokenizer, ghost read: Scanner) returns (tok: Kind)
    requires tz.Valid() && tz.nUnget == 0 && IsLexer(read, tz.kw)
    modifies tz, tz.pIn
    ensures tz.Valid() && tz.nUnget == 0
    ensures var x := read(TF_GET, tz.pIn.text, old(tz.Offset()));
      && tok == x.kind && tz.Offset() == x.next
      && (tok == Bareword ==> tz.sValue == x.text && NulFree(x.text))
  {
    assert read(TF_GET, tz.pIn.text, tz.Offset()) == Lex(tz.kw, TF_GET, tz.pIn.text, tz.Offset());
    tok := tz.GetToken(true, TF_GET);
  }

  /** The token behind a name or an index. Behind a closing brace nothing is read ahead. */
  method ReadEnd(tz: Tokenizer, ghost read: Scanner) returns (tok: Kind)
    requires tz.Valid() && tz.nUnget == 0 && IsLexer(read, tz.kw)
    modifies tz, tz.pIn
    ensures tz.Valid() && tz.nUnget == 0
    ensures var y := read(TF_SIGN, tz.pIn.text, old(tz.Offset()));
      && tok == y.kind && tz.Offset() == y.next
      && (tok == RCBrace ==> !tz.cCurrent.Ch?)
  {
    ghost var t, i := tz.pIn.text, tz.Offset();
    assert read(TF_SIGN, t, i) == Lex(tz.kw, TF_SIGN, t, i);
    tok := tz.GetToken(true, TF_SIGN);
    if tok == RCBrace {
      BraceReadsNoFurther(tz.kw, TF_SIGN, t, i);
    }
  }

  /** The grammar of expressions, on the input from offset `i` on. Behind a bracket or a brace
      that ends an expression nothing is read ahead; behind another token no parser goes on. */
  method ParseExpression(tz: Tokenizer, g: Grammar, i: nat) returns (r: Parsing)
    requires tz.Valid() && tz.nUnget == 0 && i <= |tz.pIn.text|
    modifies tz, tz.pIn
    ensures tz.Valid() && tz.nUnget == 0 && r == g(tz.pIn.text, i)
    ensures r.Parsed? ==> tz.Offset() == r.next && !tz.cCurrent.Ch?
  {
    r := g(tz.pIn.text, i);
    if r.Parsed? {
      tz.enToken := r.stop;
      tz.cCurrent := Nothing;
      tz.pIn.pos := r.next;
    }
  }

  /** The body of the loop of `parse_identifier`. */
  method ParseIndex(tz: Tokenizer, ghost read: Scanner, g: Grammar) returns (r: Result<Expr, Failure>)
    requires tz.Valid() && tz.nUnget == 0 && IsLexer(read, tz.kw)
    modifies tz, tz.pIn
    ensures tz.Valid() && tz.nUnget == 0
    ensures match IndexAt(read, g, tz.pIn.text, old(tz.Offset()))
            case Failed(status) => r == Err(status)
            case Parsed(tree, next) => r == Ok(tree) && tz.Offset() == next
  {
    var start := tz.Offset();
    var tok := ReadWord(tz, read);
    if tok == Bareword {
      var name := tz.sValue;
      tok := ReadWord(tz, read);
      return if tok == RQBrace then Ok(Resolve(name, [])) else Err(BadToken);
    }
    var e := ParseExpression(tz, g, start);
    if e.Failed? {
      return Err(e.status);
    }
    return if e.stop == RQBrace then Ok(e.tree) else Err(BadToken);
  }

  /** `parse_identifier`, from behind the name. */
  method ParseIdentifier(tz: Tokenizer, ghost read: Scanner, g: Grammar, name: Name) returns (r: Parsing)
    requires tz.Valid() && tz.nUnget == 0 && IsLexer(read, tz.kw)
    modifies tz, tz.pIn
    ensures tz.Valid() && tz.nUnget == 0
    ensures r == IndexesAt(read, g, tz.pIn.text, old(tz.Offset()), name, [])
    ensures r.Parsed? ==> tz.Offset() == r.next && (r.stop == RCBrace ==> !tz.cCurrent.Ch?)
  {
    ghost var t, i := tz.pIn.text, tz.Offset();
    var items: seq<Expr> := [];
    while true
      invariant tz.Valid() && tz.nUnget == 0
      invariant IndexesAt(read, g, t, tz.Offset(), name, items) == IndexesAt(read, g, t, i, name, [])
      decreases |t| - tz.Offset()
    {
      var tok := ReadEnd(tz, read);
      if tok != LQBrace {
        return Parsed(Resolve(name, items), tok, tz.Offset());
      }
      var item := ParseIndex(tz, read, g);
      if item.Err? {
        return Failed(item.error);
      }
      items := items + [item.value];
    }
  }

  method ParseOperand(tz: Tokenizer, ghost read: Scanner, g: Grammar) returns (r: Parsing)
    requires tz.Valid() && tz.nUnget == 0 && IsLexer(read, tz.kw)
    modifies tz, tz.pIn
    ensures tz.Valid() && tz.nUnget == 0
    ensures r == OperandAt(read, g, tz.pIn.text, old(tz.Offset()))
    ensures r.Parsed? ==> tz.Offset() == r.next && (r.stop == RCBrace ==> !tz.cCurrent.Ch?)
  {
    var start := tz.Offset();
    var tok := ReadWord(tz, read);
    if tok == Bareword {
      r := ParseIdentifier(tz, read, g, tz.sValue);
    } else {
      r := ParseExpression(tz, g, start);
    }
  }

  /** The tokenizer on the input that it shares with the scanner of the template. After a
      substitution the input stands right behind the closing brace, nothing is read ahead and no
      token is pending. */
  method ParseSubstitution(tz: Tokenizer, ghost read: Scanner, g: Grammar) returns (r: T.SubResult)
    requires tz.Valid() && tz.nUnget == 0 && IsLexer(read, tz.kw) && !tz.cCurrent.Ch?
    modifies tz, tz.pIn
    ensures tz.Valid()
    ensures r == SubstitutionAt(read, g, tz.pIn.text, old(tz.pIn.pos))
    ensures r.Parsed? ==> tz.pIn.pos == r.next && !tz.cCurrent.Ch? && tz.nUnget == 0
  {
    var e := ParseOperand(tz, read, g);
    if e.Failed? {
      return T.Failed(e.status);
    } else if e.stop != RCBrace {
      return T.Failed(if e.stop == EOF then EndOfFile else BadToken);
    }
    return T.Parsed(e.tree, e.next);
  }

  /** The scanner behind a step that has come to the tree `expr` and the pending text `tmp`. */
  function Scanned(i: nat, dollar: bool, r: Result<(Option<Expr>, string), Failure>): T.Scanner {
    if r.Err? then T.Broken(r.error) else T.Scanning(i, dollar, r.value.0, r.value.1)
  }

  /** The branch for the character `c` behind a dollar sign. */
  method ParseDollar(tz: Tokenizer, ghost read: Scanner, g: Grammar, ghost sub: T.SubParser,
                     expr: Option<Expr>, tmp: string, c: char)
    returns (r: Result<(Option<Expr>, string), Failure>)
    requires tz.Valid() && tz.nUnget == 0 && IsLexer(read, tz.kw) && !tz.cCurrent.Ch?
    requires Parses(sub, read, g) && tz.pIn.pos > 0 && tz.pIn.text[tz.pIn.pos - 1] == c
    modifies tz, tz.pIn
    ensures tz.Valid() && (r.Ok? ==> tz.nUnget == 0 && !tz.cCurrent.Ch? && tz.pIn.pos >= old(tz.pIn.pos))
    ensures T.Advance(sub, tz.pIn.text, T.Scanning(old(tz.pIn.pos) - 1, true, expr, tmp))
         == Scanned(tz.pIn.pos, false, r)
  {
    if c != '{' {
      return Ok((expr, if c == '$' then tmp + "$" else tmp + "$" + [c]));
    }
    assert sub(tz.pIn.text, tz.pIn.pos) == SubstitutionAt(read, g, tz.pIn.text, tz.pIn.pos);
    var left := T.PrependString(expr, tmp, false);
    var right := ParseSubstitution(tz, read, g);
    if right.Failed? {
      return Err(right.status);
    }
    return Ok((Some(T.Joined(left, right.tree)), ""));
  }

  /** The loop of `parse_string`: it reads the input character by character and hands it to one
      tokenizer for every substitution. */
  method ParseAll(input: Source, kw: Keywords, g: Grammar, ghost read: Scanner, ghost sub: T.SubParser)
    returns (r: Result<Expr, Failure>)
    requires input.Valid() && IsLexer(read, kw) && Parses(sub, read, g)
    modifies input
    ensures input.Valid() && r == T.Compile(sub, input.text, old(input.pos))
  {
    ghost var t, start := input.text, input.pos;
    var tz := new Tokenizer(input, kw);
    var tmp := "";
    var expr: Option<Expr> := None;
    var dollar := false;
    while true
      invariant tz.Valid() && fresh(tz) && tz.pIn == input && tz.kw == kw && tz.nUnget == 0 && !tz.cCurrent.Ch?
      invariant T.Scan(sub, t, T.Scanning(input.pos, dollar, expr, tmp)) == T.Compile(sub, t, start)
      decreases |t| - input.pos
    {
      var wc := input.Read();
      if wc.AtEnd? {
        break;
      }
      if dollar {
        var next := ParseDollar(tz, read, g, sub, expr, tmp, wc.c);
        if next.Err? {
          return Err(next.error);
        }
        dollar, expr, tmp := false, next.value.0, next.value.1;
      } else if wc.c == '$' {
        dollar := true;
      } else {
        tmp := tmp + [wc.c];
      }
    }
    expr := T.PrependString(expr, tmp, expr.None?);
    return Ok(expr.value);
  }

  method ParseString(input: Source, kw: Keywords, g: Grammar) returns (r: Result<Expr, Failure>)
    requires input.Valid()
    modifies input
    ensures input.Valid() && T.Honest(Substitution(kw, g))
    ensures r == T.Compile(Substitution(kw, g), input.text, old(input.pos))
  {
    SubstitutionParses(kw, g);
    r := ParseAll(input, kw, g, ScannerOf(kw), Substitution(kw, g));
  }
}
