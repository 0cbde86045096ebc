/** How tokens are written, and that the tokenizer of src/main/expr/Tokenizer.cpp reads every
    spelling as the token that it stands for. */
module TokenSpelling {
  import opened Basics
  import opened Lexing
  import opened Texts

  // ------------------------------------------------------------------
  // Characters.

  predicate IsLetter(c: char) {
    'a' <= c <= 'z' || 'A' <= c <= 'Z'
  }

  predicate IsNumeral(c: char) {
    '0' <= c <= '9'
  }

  lemma IdentifierLetters(c: char)
    ensures IsIdentifierFirst(c) <==> IsLetter(c) || c == '_'
    ensures IsIdentifierNext(c) <==> IsLetter(c) || c == '_' || IsNumeral(c)
  {
  }

  lemma HexDigits(c: char)
    ensures IsHex(c) <==> c in "0123456789abcdefABCDEF"
  {
  }

  lemma Blanks(c: char)
    ensures IsSpace(c) <==> c in " \t\n\r"
  {
  }

  /** White space in front of a token is passed over, and nothing else is. */
  lemma BlanksPassed(blanks: string, t: string)
    requires forall i :: 0 <= i < |blanks| ==> blanks[i] in " \t\n\r"
    requires t == "" || t[0] !in " \t\n\r"
    ensures SkipSpace(blanks + t, 0) == |blanks|
  {
    forall i | 0 <= i < |blanks| ensures IsSpace(blanks[i]) {
      Blanks(blanks[i]);
    }
    if t != "" {
      Blanks(t[0]);
    }
    SpaceEnds(blanks + t, 0, blanks);
  }

  lemma OnlyBlanks(kw: Keywords, flags: Flags, blanks: string)
    requires forall i :: 0 <= i < |blanks| ==> blanks[i] in " \t\n\r"
    ensures Lex(kw, flags, blanks, 0) == Lexeme(EOF, "", 0, |blanks|, false)
  {
    assert blanks + "" == blanks;
    BlanksPassed(blanks, "");
  }

  // ------------------------------------------------------------------
  // Symbols.

  /** The spellings of a symbol. */
  function Spellings(k: Kind): seq<string> {
    match k
    case LBrace => ["("]
    case RBrace => [")"]
    case LQBrace => ["["]
    case RQBrace => ["]"]
    case LCBrace => ["{"]
    case RCBrace => ["}"]
    case Div => ["/"]
    case IMod => ["%"]
    case BNot => ["~"]
    case Question => ["?"]
    case Semicolon => [";"]
    case Comma => [","]
    case Mul => ["*"]
    case Pow => ["**"]
    case And => ["&", "&&"]
    case Or => ["|", "||"]
    case Xor => ["^", "^^"]
    case Not => ["!"]
    case NotEq => ["!=", "<>"]
    case Greater => [">"]
    case GreaterEq => [">="]
    case Eq => ["=", "=="]
    case Less => ["<"]
    case LessEq => ["<="]
    case Cmp => ["<=>"]
    case Colon => [":"]
    case Sharp => ["#"]
    case At => ["@"]
    case _ => []
  }

  /** A character behind a spelling makes a longer symbol, a name or a colour of it. */
  predicate Prolongs(sp: string, c: char, flags: Flags) {
    match sp
    case "*" => c == '*'
    case "&" => c == '&'
    case "|" => c == '|'
    case "^" => c == '^'
    case "!" => c == '='
    case "=" => c == '='
    case ">" => c == '='
    case "<" => c == '=' || c == '>'
    case "<=" => c == '>'
    case ":" => IsLetter(c) || c == '_'
    case "#" => flags.color && c in "0123456789abcdefABCDEF"
    case "@" => flags.color && c in "0123456789abcdefABCDEF"
    case _ => false
  }

  /** The text `sp` is read as one token of kind `k`, with the text `text`. */
  predicate IsRead(kw: Keywords, flags: Flags, sp: string, rest: string, k: Kind, text: string) {
    match Lex(kw, flags, sp + rest, 0)
    case Lexeme(kind, read, _, next, _) => kind == k && read == text && next == |sp|
  }

  lemma AtStart(kw: Keywords, flags: Flags, sp: string, rest: string)
    requires sp != "" && !IsSpace(sp[0])
    ensures Lex(kw, flags, sp + rest, 0) == TokenAt(kw, flags, sp + rest, 0)
    ensures (sp + rest)[0..|sp|] == sp
  {
  }

  lemma SingleRead(kw: Keywords, flags: Flags, c: char, rest: string)
    requires SingleSymbol(c).Some?
    ensures IsRead(kw, flags, [c], rest, SingleSymbol(c).value, [c])
  {
    AtStart(kw, flags, [c], rest);
  }

  lemma PairRead(kw: Keywords, flags: Flags, c: char, rest: string)
    requires PairSymbol(c).Some?
    ensures var (one, d, two) := PairSymbol(c).value;
      && (rest == "" || rest[0] != d ==> IsRead(kw, flags, [c], rest, one, [c]))
      && IsRead(kw, flags, [c, d], rest, two, [c, d])
  {
    var d := PairSymbol(c).value.1;
    AtStart(kw, flags, [c], rest);
    AtStart(kw, flags, [c, d], rest);
  }

  lemma LessFirst(kw: Keywords, flags: Flags, t: string)
    requires t != "" && t[0] == '<'
    ensures Lex(kw, flags, t, 0) == LessAt(t, 0)
  {
  }

  lemma LessRead(kw: Keywords, flags: Flags, rest: string)
    requires rest == "" || (rest[0] != '=' && rest[0] != '>')
    ensures IsRead(kw, flags, "<", rest, Less, "<")
  {
    LessFirst(kw, flags, "<" + rest);
    assert ("<" + rest)[0..1] == "<";
  }

  lemma LessEqRead(kw: Keywords, flags: Flags, rest: string)
    requires rest == "" || rest[0] != '>'
    ensures IsRead(kw, flags, "<=", rest, LessEq, "<=")
  {
    LessFirst(kw, flags, "<=" + rest);
    assert ("<=" + rest)[0..2] == "<=";
  }

  lemma LongerLessRead(kw: Keywords, flags: Flags, rest: string)
    ensures IsRead(kw, flags, "<=>", rest, Cmp, "<=>") && IsRead(kw, flags, "<>", rest, NotEq, "<>")
  {
    LessFirst(kw, flags, "<=>" + rest);
    LessFirst(kw, flags, "<>" + rest);
    assert ("<=>" + rest)[0..3] == "<=>" && ("<>" + rest)[0..2] == "<>";
  }

  lemma ColonAlone(kw: Keywords, flags: Flags, rest: string)
    requires rest == "" || !IsIdentifierFirst(rest[0])
    ensures IsRead(kw, flags, ":", rest, Colon, ":")
  {
    AtStart(kw, flags, ":", rest);
  }

  lemma NoName(c: char, flags: Flags)
    requires !Prolongs(":", c, flags)
    ensures !IsIdentifierFirst(c)
  {
    IdentifierLetters(c);
  }

  lemma ColonRead(kw: Keywords, flags: Flags, rest: string)
    requires rest == "" || !Prolongs(":", rest[0], flags)
    ensures IsRead(kw, flags, ":", rest, Colon, ":")
  {
    if rest != "" {
      NoName(rest[0], flags);
    }
    ColonAlone(kw, flags, rest);
  }

  lemma MarkRead(kw: Keywords, flags: Flags, c: char, rest: string)
    requires (c == '#' || c == '@') && (rest == "" || !Prolongs([c], rest[0], flags))
    ensures IsRead(kw, flags, [c], rest, if c == '#' then Sharp else At, [c])
  {
    AtStart(kw, flags, [c], rest);
    if rest != "" {
      HexDigits(rest[0]);
    }
  }

  const SINGLES: set<Kind> :=
    {LBrace, RBrace, LQBrace, RQBrace, LCBrace, RCBrace, Div, IMod, BNot, Question, Semicolon, Comma}

  lemma SingleKnown(k: Kind, sp: string)
    requires sp in Spellings(k) && k in SINGLES
    ensures |sp| == 1 && SingleSymbol(sp[0]) == Some(k)
  {
  }

  /** A spelling from the table of pairs. */
  predicate IsPair(k: Kind, sp: string) {
    && sp != "" && PairSymbol(sp[0]).Some?
    && var (one, d, two) := PairSymbol(sp[0]).value;
      (sp == [sp[0]] && k == one) || (sp == [sp[0], d] && k == two)
  }

  lemma PairProlonged(k: Kind, sp: string, c: char, flags: Flags)
    requires IsPair(k, sp) && !Prolongs(sp, c, flags) && |sp| == 1
    ensures c != PairSymbol(sp[0]).value.1
  {
  }

  lemma PairSpelled(kw: Keywords, flags: Flags, k: Kind, sp: string, rest: string)
    requires IsPair(k, sp) && (rest == "" || !Prolongs(sp, rest[0], flags))
    ensures IsRead(kw, flags, sp, rest, k, sp)
  {
    if |sp| == 1 && rest != "" {
      PairProlonged(k, sp, rest[0], flags);
    }
    assert sp == [sp[0]] || sp == [sp[0], PairSymbol(sp[0]).value.1];
    PairRead(kw, flags, sp[0], rest);
  }

  lemma OtherKnown(k: Kind, sp: string)
    requires sp in Spellings(k) && k !in SINGLES && !IsPair(k, sp)
    ensures match sp
            case "<" => k == Less
            case "<=" => k == LessEq
            case "<=>" => k == Cmp
            case "<>" => k == NotEq
            case ":" => k == Colon
            case "#" => k == Sharp
            case "@" => k == At
            case _ => false
  {
  }

  lemma LessProlonged(c: char, flags: Flags)
    ensures Prolongs("<", c, flags) <==> c == '=' || c == '>'
    ensures Prolongs("<=", c, flags) <==> c == '>'
  {
  }

  lemma LessAlone(kw: Keywords, flags: Flags, rest: string)
    ensures rest == "" || !Prolongs("<", rest[0], flags) ==> IsRead(kw, flags, "<", rest, Less, "<")
    ensures rest == "" || !Prolongs("<=", rest[0], flags) ==> IsRead(kw, flags, "<=", rest, LessEq, "<=")
  {
    if rest != "" {
      LessProlonged(rest[0], flags);
    }
    if rest == "" || (rest[0] != '=' && rest[0] != '>') {
      LessRead(kw, flags, rest);
    }
    if rest == "" || rest[0] != '>' {
      LessEqRead(kw, flags, rest);
    }
  }

  lemma MarkAlone(kw: Keywords, flags: Flags, rest: string)
    ensures rest == "" || !Prolongs("#", rest[0], flags) ==> IsRead(kw, flags, "#", rest, Sharp, "#")
    ensures rest == "" || !Prolongs("@", rest[0], flags) ==> IsRead(kw, flags, "@", rest, At, "@")
  {
    if rest == "" || !Prolongs("#", rest[0], flags) {
      MarkRead(kw, flags, '#', rest);
    }
    if rest == "" || !Prolongs("@", rest[0], flags) {
      MarkRead(kw, flags, '@', rest);
    }
  }

  lemma OtherSpelled(kw: Keywords, flags: Flags, k: Kind, sp: string, rest: string)
    requires sp in Spellings(k) && k !in SINGLES && !IsPair(k, sp)
    requires rest == "" || !Prolongs(sp, rest[0], flags)
    ensures IsRead(kw, flags, sp, rest, k, sp)
  {
    OtherKnown(k, sp);
    if sp == ":" {
      ColonRead(kw, flags, rest);
    } else if sp == "#" || sp == "@" {
      MarkAlone(kw, flags, rest);
    } else if sp == "<" || sp == "<=" {
      LessAlone(kw, flags, rest);
    } else {
      LongerLessRead(kw, flags, rest);
    }
  }

  /** Every spelling of a symbol is read as that symbol, whatever the flags and the keywords, unless
      the next character makes something longer of it. */
  lemma SymbolRead(kw: Keywords, flags: Flags, k: Kind, sp: string, rest: string)
    requires sp in Spellings(k) && (rest == "" || !Prolongs(sp, rest[0], flags))
    ensures IsRead(kw, flags, sp, rest, k, sp)
  {
    if k in SINGLES {
      SingleKnown(k, sp);
      assert sp == [sp[0]];
      SingleRead(kw, flags, sp[0], rest);
    } else {
      if IsPair(k, sp) {
        PairSpelled(kw, flags, k, sp, rest);
      } else {
        OtherSpelled(kw, flags, k, sp, rest);
      }
    }
  }

  lemma PairLonger(kw: Keywords, flags: Flags, k: Kind, sp: string, rest: string)
    requires IsPair(k, sp) && rest != "" && Prolongs(sp, rest[0], flags)
    ensures Lex(kw, flags, sp + rest, 0).next > |sp|
  {
    var d := PairSymbol(sp[0]).value.1;
    assert sp == [sp[0]] && rest[0] == d;
    PairRead(kw, flags, sp[0], rest[1..]);
    assert [sp[0], d] + rest[1..] == sp + rest;
  }

  lemma OtherLonger(kw: Keywords, flags: Flags, sp: string, rest: string)
    requires (sp == "<" || sp == "<=" || sp == ":") && rest != "" && Prolongs(sp, rest[0], flags)
    ensures Lex(kw, flags, sp + rest, 0).next > |sp|
  {
    AtStart(kw, flags, sp, rest);
    assert (sp + rest)[|sp|] == rest[0];
  }

  lemma MarkLonger(kw: Keywords, flags: Flags, sp: string, rest: string)
    requires (sp == "#" || sp == "@") && rest != "" && Prolongs(sp, rest[0], flags)
    ensures Lex(kw, flags, sp + rest, 0).next > |sp|
  {
    AtStart(kw, flags, sp, rest);
    assert (sp + rest)[1] == rest[0];
    HexDigits(rest[0]);
  }

  /** The condition is exact: what a character prolongs is not read alone. */
  lemma SymbolProlonged(kw: Keywords, flags: Flags, k: Kind, sp: string, rest: string)
    requires sp in Spellings(k) && rest != "" && Prolongs(sp, rest[0], flags)
    ensures Lex(kw, flags, sp + rest, 0).next > |sp|
  {
    if k in SINGLES {
      SingleKnown(k, sp);
      assert sp == [sp[0]];
      NotProlonged(sp[0], rest[0], flags);
    } else if IsPair(k, sp) {
      PairLonger(kw, flags, k, sp, rest);
    } else if sp == "#" || sp == "@" {
      MarkLonger(kw, flags, sp, rest);
    } else {
      OtherLonger(kw, flags, sp, rest);
    }
  }

  lemma NotProlonged(c: char, d: char, flags: Flags)
    requires SingleSymbol(c).Some?
    ensures !Prolongs([c], d, flags)
  {
  }

  // ------------------------------------------------------------------
  // Signs, words, names and colours.

  /** With the flag for signs, a sign is a token of its own; without it, unless a number follows. */
  lemma SignRead(kw: Keywords, flags: Flags, rest: string)
    requires flags.xsign || rest == "" || !(IsNumeral(rest[0]) || rest[0] == '_' || rest[0] == '.')
    ensures IsRead(kw, flags, "+", rest, Add, "+") && IsRead(kw, flags, "-", rest, Sub, "-")
  {
    PlainSign(kw, flags, '+', rest);
    PlainSign(kw, flags, '-', rest);
  }

  lemma PlainSign(kw: Keywords, flags: Flags, c: char, rest: string)
    requires c == '+' || c == '-'
    requires flags.xsign || rest == "" || !(IsNumeral(rest[0]) || rest[0] == '_' || rest[0] == '.')
    ensures IsRead(kw, flags, [c], rest, if c == '+' then Add else Sub, [c])
  {
    AtStart(kw, flags, [c], rest);
    if !flags.xsign {
      NoDigits(c, rest);
    }
  }

  lemma NoDigits(c: char, rest: string)
    requires c == '+' || c == '-'
    requires rest == "" || !(IsNumeral(rest[0]) || rest[0] == '_' || rest[0] == '.')
    ensures NumberAt([c] + rest, 0) == Taken([c] + rest, 0, if c == '+' then Add else Sub, 0, 1)
  {
    var t := [c] + rest;
    assert Prefix(t, 1) == (10, 1, false);
    assert ScanDigits(t, 1, 10, 0, false) == Digits(1, 0, false, false);
  }

  predicate IsWord(w: string) {
    && w != "" && (IsLetter(w[0]) || w[0] == '_')
    && forall i :: 0 <= i < |w| ==> IsLetter(w[i]) || w[i] == '_' || IsNumeral(w[i])
  }

  /** What may follow a word. */
  predicate EndsWord(rest: string) {
    rest == "" || !(IsLetter(rest[0]) || rest[0] == '_' || IsNumeral(rest[0]))
  }

  lemma WordLetters(w: string)
    requires IsWord(w)
    ensures IsIdentifierFirst(w[0]) && forall i :: 0 <= i < |w| ==> IsIdentifierNext(w[i])
  {
    IdentifierLetters(w[0]);
    forall i | 0 <= i < |w| ensures IsIdentifierNext(w[i]) {
      IdentifierLetters(w[i]);
    }
  }

  lemma WordEnds(rest: string)
    requires EndsWord(rest)
    ensures rest != "" ==> !IsIdentifierNext(rest[0])
  {
    if rest != "" {
      IdentifierLetters(rest[0]);
    }
  }

  lemma WordEnd(before: string, w: string, rest: string)
    requires IsWord(w) && EndsWord(rest)
    ensures IsIdentifierFirst(w[0])
    ensures SkipIdentifier(before + w + rest, |before| + 1) == |before + w|
  {
    WordLetters(w);
    WordEnds(rest);
    SkippedWord(before, w, rest);
  }

  lemma SkippedWord(before: string, w: string, rest: string)
    requires w != "" && (rest != "" ==> !IsIdentifierNext(rest[0]))
    requires forall i :: 0 <= i < |w| ==> IsIdentifierNext(w[i])
    ensures SkipIdentifier(before + w + rest, |before| + 1) == |before + w|
  {
    var t, tail := before + w + rest, w[1..];
    assert rest != "" ==> t[|before + w|] == rest[0];
    assert forall k {:trigger tail[k]} :: 0 <= k < |tail| ==> t[|before| + 1 + k] == w[k + 1];
    IdentifierEnds(t, |before| + 1, tail);
  }

  lemma WordFirst(kw: Keywords, flags: Flags, t: string, w: string)
    requires w != "" && w <= t && IsIdentifierFirst(t[0]) && SkipIdentifier(t, 1) == |w|
    ensures Lex(kw, flags, t, 0) == WordAt(kw, flags, t, 0) && Taken(t, 0, Bareword, 0, |w|).text == w
  {
  }

  lemma WordKind(kw: Keywords, flags: Flags, t: string, w: string)
    requires w != "" && w <= t && IsIdentifierFirst(t[0]) && SkipIdentifier(t, 1) == |w|
    ensures var x := Lex(kw, flags, t, 0);
      x.text == w && x.next == |w|
      && x.kind == if kw(w).Some? && !flags.xkeywords then Keyword(kw(w).value) else Bareword
  {
    WordFirst(kw, flags, t, w);
  }

  /** A word is a keyword if the table knows it and the flags do not exclude keywords. */
  lemma WordRead(kw: Keywords, flags: Flags, w: string, rest: string)
    requires IsWord(w) && EndsWord(rest)
    ensures kw(w).Some? && !flags.xkeywords ==> IsRead(kw, flags, w, rest, Keyword(kw(w).value), w)
    ensures kw(w).None? || flags.xkeywords ==> IsRead(kw, flags, w, rest, Bareword, w)
  {
    WordEnd("", w, rest);
    assert "" + w + rest == w + rest && "" + w == w;
    WordKind(kw, flags, w + rest, w);
  }

  lemma NameFirst(kw: Keywords, flags: Flags, t: string, next: nat)
    requires |t| > 1 && t[0] == ':' && IsIdentifierFirst(t[1]) && next == SkipIdentifier(t, 2)
    ensures Lex(kw, flags, t, 0) == Taken(t, 1, Identifier, 0, next)
  {
  }

  /** A colon before a word makes a name of it, keyword or not. */
  lemma NameRead(kw: Keywords, flags: Flags, w: string, rest: string)
    requires IsWord(w) && EndsWord(rest)
    ensures IsRead(kw, flags, ":" + w, rest, Identifier, w)
  {
    var t := ":" + w + rest;
    WordEnd(":", w, rest);
    assert t[1] == w[0] && t[1..1 + |w|] == w;
    NameFirst(kw, flags, t, 1 + |w|);
  }

  lemma {:induction false} HexEnds(t: string, o: nat, s: string)
    requires Occurs(t, o, s) && (o + |s| < |t| ==> !IsHex(t[o + |s|]))
    requires forall k :: 0 <= k < |s| ==> IsHex(s[k])
    ensures SkipHex(t, o) == o + |s|
    decreases |s|
  {
    if s != "" {
      First(t, o, s);
      HexEnds(t, o + 1, s[1..]);
    }
  }

  lemma ColorFirst(kw: Keywords, flags: Flags, t: string, next: nat)
    requires t != "" && (t[0] == '#' || t[0] == '@') && flags.color && next == SkipHex(t, 1) > 1
    ensures Lex(kw, flags, t, 0) == Taken(t, 0, Color, 0, next)
  {
  }

  lemma DigitsEnd(before: string, digits: string, rest: string)
    requires forall i :: 0 <= i < |digits| ==> digits[i] in "0123456789abcdefABCDEF"
    requires rest == "" || rest[0] !in "0123456789abcdefABCDEF"
    ensures SkipHex(before + digits + rest, |before|) == |before + digits|
  {
    var t := before + digits + rest;
    forall i | 0 <= i < |digits| ensures IsHex(digits[i]) {
      HexDigits(digits[i]);
    }
    if rest != "" {
      HexDigits(rest[0]);
      assert t[|before + digits|] == rest[0];
    }
    assert forall k {:trigger digits[k]} :: 0 <= k < |digits| ==> t[|before| + k] == digits[k];
    HexEnds(t, |before|, digits);
  }

  /** With the flag for colours, hexadecimal digits behind a mark are a colour. */
  lemma ColorRead(kw: Keywords, flags: Flags, c: char, digits: string, rest: string)
    requires flags.color && (c == '#' || c == '@') && digits != ""
    requires forall i :: 0 <= i < |digits| ==> digits[i] in "0123456789abcdefABCDEF"
    requires rest == "" || rest[0] !in "0123456789abcdefABCDEF"
    ensures IsRead(kw, flags, [c] + digits, rest, Color, [c] + digits)
  {
    var t := [c] + digits + rest;
    DigitsEnd([c], digits, rest);
    assert t[0..1 + |digits|] == [c] + digits;
    ColorFirst(kw, flags, t, 1 + |digits|);
  }

  /** A character that starts no token gives an unknown one, and is not read. */
  lemma NothingRead(kw: Keywords, flags: Flags, c: char, rest: string)
    requires !IsLetter(c) && !IsNumeral(c) && c !in "_ \t\n\r()[]{}/%~?;,*&|!^><=:#@'+-."
    ensures var x := Lex(kw, flags, [c] + rest, 0); x.kind == Unknown && x.text == "" && x.next == 0
  {
    var t := [c] + rest;
    IdentifierLetters(c);
    Blanks(c);
    OtherCharacter(c);
    assert Prefix(t, 0) == (10, 0, false);
    assert ScanDigits(t, 0, 10, 0, false) == Digits(0, 0, false, false);
  }

  lemma OtherCharacter(c: char)
    requires !IsNumeral(c) && c !in "()[]{}/%~?;,*&|!^><=:#@'+-."
    ensures SingleSymbol(c).None? && PairSymbol(c).None? && DigitOf('0', 10).Some?
    ensures c != '#' && c != '@' && c != '<' && c != ':' && c != '\'' && c != '+' && c != '-' && c != '.'
    ensures !('0' <= c <= '9')
  {
  }
}
