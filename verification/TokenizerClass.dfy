/** The tokenizer: src/main/expr/Tokenizer.cpp. */
module Tokenizers {
  import opened Basics
  import opened Lexing

  /** The result of reading a character. */
  datatype Look = Nothing | AtEnd | Ch(c: char)

  /** A character sequence over a string: src/main/io/InStringSequence.cpp. */
  class Source {
    const text: string
    var pos: nat

    constructor (text: string)
      ensures this.text == text && pos == 0
    {
      this.text, pos := text, 0;
    }

    ghost predicate Valid()
      reads this
    {
      pos <= |text|
    }

    method Read() returns (c: Look)
      requires Valid()
      modifies this
      ensures Valid()
      ensures c == if old(pos) < |text| then Ch(text[old(pos)]) else AtEnd
      ensures pos == if old(pos) < |text| then old(pos) + 1 else old(pos)
    {
      if pos < |text| {
        c := Ch(text[pos]);
        pos := pos + 1;
      } else {
        c := AtEnd;
      }
    }
  }

  class Tokenizer {
    const pIn: Source
    const kw: Keywords
    var cCurrent: Look
    var enToken: Kind
    var sValue: string
    var iValue: Int64
    var nError: Status
    var nUnget: nat
    ghost var start: nat

    constructor (input: Source, kw: Keywords)
      requires input.Valid()
      ensures Valid() && pIn == input && this.kw == kw
      ensures cCurrent == Nothing && nUnget == 0 && enToken == Unknown && sValue == ""
    {
      pIn, this.kw, start := input, kw, 0;
      cCurrent, enToken, sValue, iValue, nError, nUnget := Nothing, Unknown, "", 0, Success, 0;
    }

    ghost predicate Valid()
      reads this, pIn
    {
      && pIn.Valid()
      && (cCurrent.Ch? ==> pIn.pos > 0 && pIn.text[pIn.pos - 1] == cCurrent.c)
      && (cCurrent.AtEnd? ==> pIn.pos == |pIn.text|)
    }

    /** How far the input is consumed; a character read ahead is not. */
    function Offset(): (o: nat)
      requires Valid()
      reads this, pIn
      ensures o <= |pIn.text|
    {
      if cCurrent.Ch? then pIn.pos - 1 else pIn.pos
    }

    /** The value is the input from the start of the token on. */
    ghost predicate Spans()
      requires Valid()
      reads this, pIn
    {
      start <= Offset() && sValue == pIn.text[start..Offset()]
    }

    /** The character at the offset is read ahead, if there is one. */
    ghost predicate Looking()
      requires Valid()
      reads this, pIn
    {
      if Offset() < |pIn.text| then cCurrent == Ch(pIn.text[Offset()]) else !cCurrent.Ch?
    }

    /** `sValue.clear()`: a token text starts here. */
    method Restart()
      requires Valid()
      modifies this`sValue, this`start
      ensures Valid() && Spans() && start == Offset() && sValue == ""
    {
      sValue := "";
      start := Offset();
    }

    /** `lookup`, and the first statement of the functions that read ahead themselves. */
    method Lookup() returns (c: Look)
      requires Valid()
      modifies this`cCurrent, pIn
      ensures Valid() && Looking() && Offset() == old(Offset())
      ensures c == cCurrent != Nothing
    {
      if !cCurrent.Ch? {
        cCurrent := pIn.Read();
      }
      return cCurrent;
    }

    /** Drops the character read ahead and reads the next one. */
    method Advance()
      requires Valid() && cCurrent.Ch?
      modifies this`cCurrent, pIn
      ensures Valid() && Looking() && Offset() == old(Offset()) + 1 && cCurrent != Nothing
    {
      cCurrent := pIn.Read();
    }

    method SetError(code: Status)
      modifies this`nError, this`enToken
      ensures nError == code && enToken == Error
    {
      nError, enToken := code, Error;
    }

    /** `commit`: the character read ahead becomes part of the token. */
    method Commit(token: Kind)
      requires Valid()
      modifies this`cCurrent, this`sValue, this`enToken, this`nError
      ensures Valid() && !cCurrent.Ch?
      ensures old(cCurrent.Ch?) ==> enToken == token && Offset() == old(Offset()) + 1 && nError == old(nError)
      ensures old(cCurrent.Ch? && Spans()) ==> Spans()
      ensures !old(cCurrent.Ch?) ==> enToken == Error && nError == BadState && Offset() == old(Offset())
    {
      if !cCurrent.Ch? {
        SetError(BadState);
        return;
      }
      sValue := sValue + [cCurrent.c];
      enToken := token;
      cCurrent := Nothing;
    }

    method CommitLookup(token: Kind) returns (c: Look)
      requires Valid() && cCurrent.Ch? && Spans()
      modifies this`cCurrent, this`sValue, this`enToken, this`nError, pIn
      ensures Valid() && Looking() && Spans() && Offset() == old(Offset()) + 1 && c == cCurrent != Nothing
      ensures enToken == token
    {
      Commit(token);
      c := Lookup();
    }

    method SkipWhitespace()
      requires Valid()
      modifies this`cCurrent, pIn
      ensures Valid() && Looking() && cCurrent != Nothing
      ensures Offset() == SkipSpace(pIn.text, old(Offset()))
    {
      var _ := Lookup();
      while cCurrent.Ch? && IsSpace(cCurrent.c)
        invariant Valid() && Looking() && cCurrent != Nothing
        invariant SkipSpace(pIn.text, Offset()) == SkipSpace(pIn.text, old(Offset()))
        decreases |pIn.text| - Offset()
      {
        Advance();
      }
    }

    /** Appends the character read ahead and reads the next one. */
    method Append()
      requires Valid() && cCurrent.Ch? && Spans()
      modifies this`cCurrent, this`sValue, pIn
      ensures Valid() && Looking() && Spans() && Offset() == old(Offset()) + 1
    {
      sValue := sValue + [cCurrent.c];
      cCurrent := pIn.Read();
    }

    method AppendIdentifier()
      requires Valid() && Looking() && Spans()
      modifies this`cCurrent, this`sValue, pIn
      ensures Valid() && Looking() && Spans()
      ensures Offset() == SkipIdentifier(pIn.text, old(Offset()))
    {
      while cCurrent.Ch? && IsIdentifierNext(cCurrent.c)
        invariant Valid() && Looking() && Spans()
        invariant SkipIdentifier(pIn.text, Offset()) == SkipIdentifier(pIn.text, old(Offset()))
        decreases |pIn.text| - Offset()
      {
        Append();
      }
    }

    method LookupIdentifier(kind: Kind)
      requires Valid()
      modifies this`cCurrent, this`sValue, this`start, this`enToken, pIn
      ensures Valid() && Looking()
      ensures
        var t, o := pIn.text, old(Offset());
        if o < |t| && IsIdentifierFirst(t[o]) then
          start == o && Spans() && enToken == kind && Offset() == SkipIdentifier(t, o + 1)
        else sValue == old(sValue) && start == old(start) && enToken == old(enToken) && Offset() == o
    {
      var c := Lookup();
      if c.Ch? && IsIdentifierFirst(c.c) {
        Restart();
        Append();
        AppendIdentifier();
        enToken := kind;
      }
    }

    method AppendHex()
      requires Valid() && Looking() && Spans()
      modifies this`cCurrent, this`sValue, pIn
      ensures Valid() && Looking() && Spans()
      ensures Offset() == SkipHex(pIn.text, old(Offset()))
    {
      while cCurrent.Ch? && IsHex(cCurrent.c)
        invariant Valid() && Looking() && Spans()
        invariant SkipHex(pIn.text, Offset()) == SkipHex(pIn.text, old(Offset()))
        decreases |pIn.text| - Offset()
      {
        Append();
      }
    }

    method LookupColor()
      requires Valid() && Looking() && Spans()
      modifies this`cCurrent, this`sValue, this`enToken, pIn
      ensures Valid() && Looking() && Spans()
      ensures Offset() == SkipHex(pIn.text, old(Offset()))
      ensures enToken == if Offset() > old(Offset()) then Color else old(enToken)
    {
      if cCurrent.Ch? && IsHex(cCurrent.c) {
        AppendHex();
        enToken := Color;
      }
    }

    // ----------------------------------------------------------------
    // Numbers.

    /** The current token is as described. */
    ghost predicate Holds(x: Lexeme)
      requires Valid()
      reads this, pIn
    {
      && enToken == x.kind && sValue == x.text && Offset() == x.next
      && (cCurrent.Ch? <==> x.ahead)
      && (x.kind == IValue ==> iValue == x.num)
    }

    /** The digit loops of `lookup_number`; a misplaced separator is left to the caller. */
    method ReadDigits(radix: nat, seen0: bool) returns (value: Int64, seen: bool, misplaced: bool)
      requires Valid() && Looking() && Spans()
      modifies this`cCurrent, this`sValue, this`enToken, this`nError, pIn
      ensures Valid() && Looking() && Spans()
      ensures ScanDigits(pIn.text, old(Offset()), radix, 0, seen0) == Digits(Offset(), value, seen, misplaced)
    {
      value, seen, misplaced := 0, seen0, false;
      while cCurrent.Ch? && DigitOf(cCurrent.c, radix).Some?
        invariant Valid() && Looking() && Spans()
        invariant ScanDigits(pIn.text, Offset(), radix, value, seen)
               == ScanDigits(pIn.text, old(Offset()), radix, 0, seen0)
        decreases |pIn.text| - Offset()
      {
        var digit := DigitOf(cCurrent.c, radix).value;
        if digit < 0 {
          if !seen {
            misplaced := true;
            return;
          }
        } else {
          value, seen := Wrap(value * radix + digit), true;
        }
        var _ := CommitLookup(IValue);
      }
    }

    method ReadSign() returns (signed: bool, negative: bool)
      requires Valid() && Looking() && Spans()
      modifies this`cCurrent, this`sValue, this`enToken, this`nError, pIn
      ensures Valid() && Looking() && Spans()
      ensures signed <==> IsSign(pIn.text, old(Offset()))
      ensures negative <==> CharIs(pIn.text, old(Offset()), '-')
      ensures Offset() == old(Offset()) + if signed then 1 else 0
    {
      negative := cCurrent == Ch('-');
      signed := negative || cCurrent == Ch('+');
      if signed {
        var _ := CommitLookup(Unknown);
      }
    }

    method ReadPrefix() returns (radix: nat, zero: bool)
      requires Valid() && Looking() && Spans()
      modifies this`cCurrent, this`sValue, this`enToken, this`nError, pIn
      ensures Valid() && Looking() && Spans()
      ensures Prefix(pIn.text, old(Offset())) == (radix, Offset(), zero)
    {
      radix, zero := 10, false;
      if cCurrent != Ch('0') {
        return;
      }
      var c := CommitLookup(Unknown);
      match c {
        case Ch('b') => radix := 2;
        case Ch('B') => radix := 2;
        case Ch('o') => radix := 8;
        case Ch('O') => radix := 8;
        case Ch('d') =>
        case Ch('D') =>
        case Ch('x') => radix := 16;
        case Ch('X') => radix := 16;
        case _ =>
          zero := true;
          return;
      }
      c := CommitLookup(Unknown);
    }

    /** The end of `lookup_number`: the number ends here. */
    method EndNumber(whole: Option<Int64>)
      requires Valid() && Looking() && Spans()
      modifies this`enToken, this`iValue
      ensures Valid() && Holds(Plain(pIn.text, start, whole, Offset()))
    {
      if whole.Some? {
        iValue := whole.value;
        enToken := IValue;
      } else {
        enToken := FValue;
      }
    }

    method EndExponent(whole: Option<Int64>, signed: bool, seen: bool, misplaced: bool, ghost exp: Digits)
      requires Valid() && Looking() && Spans()
      requires exp.next == Offset() && exp.seen == seen && exp.misplaced == misplaced
      requires misplaced ==> Offset() < |pIn.text|
      modifies this`cCurrent, this`sValue, this`enToken, this`nError, this`iValue
      ensures Valid() && Holds(AfterExponent(pIn.text, start, whole, signed, exp))
    {
      if misplaced {
        Commit(Unknown);
      } else if signed && !seen {
        enToken := Unknown;
      } else {
        EndNumber(if seen then None else whole);
      }
    }

    method ReadExponent(radix: nat, whole: Option<Int64>)
      requires Valid() && Looking() && Spans()
      modifies this`cCurrent, this`sValue, this`enToken, this`nError, this`iValue, pIn
      ensures Valid() && Holds(WithExponent(pIn.text, start, radix, whole, old(Offset())))
    {
      if cCurrent in {Ch('e'), Ch('E'), Ch('p'), Ch('P')} {
        ReadPower(radix, whole);
      } else {
        EndNumber(whole);
      }
    }

    method ReadPower(radix: nat, whole: Option<Int64>)
      requires Valid() && Looking() && Spans() && IsExponent(pIn.text, Offset())
      modifies this`cCurrent, this`sValue, this`enToken, this`nError, this`iValue, pIn
      ensures Valid() && Holds(WithExponent(pIn.text, start, radix, whole, old(Offset())))
    {
      var _ := CommitLookup(FValue);
      var signed, _ := ReadSign();
      var value, seen, misplaced := ReadDigits(radix, false);
      EndExponent(whole, signed, seen, misplaced, Digits(Offset(), value, seen, misplaced));
    }

    method ReadFraction(radix: nat, whole: bool)
      requires Valid() && Looking() && Spans() && cCurrent == Ch('.')
      modifies this`cCurrent, this`sValue, this`enToken, this`nError, this`iValue, pIn
      ensures Valid()
      ensures Holds(AfterFraction(pIn.text, start, radix, whole,
                                  ScanDigits(pIn.text, old(Offset()) + 1, radix, 0, false)))
    {
      var _ := CommitLookup(FValue);
      var value, seen, misplaced := ReadDigits(radix, false);
      EndFraction(radix, whole, seen, misplaced, Digits(Offset(), value, seen, misplaced));
    }

    method EndFraction(radix: nat, whole: bool, seen: bool, misplaced: bool, ghost frac: Digits)
      requires Valid() && Looking() && Spans()
      requires frac.next == Offset() && frac.seen == seen && frac.misplaced == misplaced
      requires misplaced ==> Offset() < |pIn.text|
      modifies this`cCurrent, this`sValue, this`enToken, this`nError, this`iValue, pIn
      ensures Valid() && Holds(AfterFraction(pIn.text, start, radix, whole, frac))
    {
      if misplaced {
        Commit(Unknown);
      } else if !whole && !seen {
        enToken := Unknown;
      } else {
        ReadExponent(radix, None);
      }
    }

    method EndWhole(radix: nat, signed: bool, negative: bool, value: Int64, seen: bool, misplaced: bool)
      requires Valid() && Looking() && Spans() && start < |pIn.text| && (misplaced ==> Offset() < |pIn.text|)
      requires (signed <==> IsSign(pIn.text, start)) && (negative <==> CharIs(pIn.text, start, '-'))
      modifies this`cCurrent, this`sValue, this`enToken, this`nError, this`iValue, pIn
      ensures Valid() && Holds(AfterWhole(pIn.text, start, radix, Digits(old(Offset()), value, seen, misplaced)))
    {
      if misplaced {
        Commit(Unknown);
      } else if cCurrent == Ch('.') {
        ReadFraction(radix, seen);
      } else if seen {
        ReadExponent(radix, Some(if negative then Negated(value) else value));
      } else {
        enToken := if !signed then Unknown else if negative then Sub else Add;
      }
    }

    method LookupNumber()
      requires Valid() && Looking() && cCurrent.Ch? && Spans() && start == Offset()
      modifies this`cCurrent, this`sValue, this`enToken, this`nError, this`iValue, pIn
      ensures Valid() && Holds(NumberAt(pIn.text, start))
    {
      var signed, negative := ReadSign();
      var radix, zero := ReadPrefix();
      var value, seen, misplaced := ReadDigits(radix, zero);
      EndWhole(radix, signed, negative, value, seen, misplaced);
    }

    // ----------------------------------------------------------------
    // String literals.

    /** The inner loop of `lookup_string`: from behind an opening quote to behind the closing one. */
    method ReadQuoted() returns (closed: bool)
      requires Valid() && !cCurrent.AtEnd?
      modifies this`cCurrent, this`sValue, this`enToken, this`nError, pIn
      ensures Valid() && !cCurrent.Ch?
      ensures (sValue, pIn.pos, closed) == (old(sValue) + QuotedAt(pIn.text, old(pIn.pos), false).0,
                                            QuotedAt(pIn.text, old(pIn.pos), false).1,
                                            QuotedAt(pIn.text, old(pIn.pos), false).2)
      ensures if closed then enToken == old(enToken) && nError == old(nError)
              else enToken == Error && nError == EndOfFile
    {
      var protector, scan := false, true;
      ghost var whole := QuotedAt(pIn.text, pIn.pos, false);
      while scan
        invariant Valid() && enToken == old(enToken) && nError == old(nError)
        invariant scan ==> After(sValue, QuotedAt(pIn.text, pIn.pos, protector)) == After(old(sValue), whole)
        invariant !scan ==> !cCurrent.Ch? && (sValue, pIn.pos, true) == After(old(sValue), whole)
        decreases |pIn.text| - pIn.pos, scan
      {
        assert sValue + "" == sValue;
        cCurrent := pIn.Read();
        if cCurrent.AtEnd? {
          SetError(EndOfFile);
          return false;
        }
        var c := cCurrent.c;
        if protector {
          AfterMore(sValue, Unescaped(c), QuotedAt(pIn.text, pIn.pos, false));
          sValue := sValue + Unescaped(c);
          protector := false;
        } else if c == '\\' {
          protector := true;
        } else if c == '\'' {
          scan := false;
          cCurrent := Nothing;
        } else {
          AfterMore(sValue, [c], QuotedAt(pIn.text, pIn.pos, false));
          sValue := sValue + [c];
        }
      }
      return true;
    }

    static ghost function After(text: string, rest: (string, nat, bool)): (string, nat, bool) {
      (text + rest.0, rest.1, rest.2)
    }

    static lemma AfterMore(text: string, piece: string, rest: (string, nat, bool))
      ensures After(text, (piece + rest.0, rest.1, rest.2)) == After(text + piece, rest)
    {
      assert text + (piece + rest.0) == text + piece + rest.0;
    }

    method LookupString()
      requires Valid() && Looking() && cCurrent != Nothing
      modifies this`cCurrent, this`sValue, this`enToken, this`nError, pIn
      ensures Valid() && Holds(StringsAt(pIn.text, old(Offset())))
      ensures enToken == Error ==> nError == EndOfFile
    {
      sValue := "";
      ghost var whole := StringsAt(pIn.text, Offset());
      while cCurrent == Ch('\'')
        invariant Valid() && Looking() && cCurrent != Nothing
        invariant whole == Behind(sValue, StringsAt(pIn.text, Offset()))
        decreases |pIn.text| - Offset()
      {
        var closed := ReadLiteral();
        if !closed {
          return;
        }
      }
      enToken := StringLiteral;
    }

    /** One literal and the white space behind it. */
    method ReadLiteral() returns (closed: bool)
      requires Valid() && Looking() && cCurrent == Ch('\'')
      modifies this`cCurrent, this`sValue, this`enToken, this`nError, pIn
      ensures Valid()
      ensures var whole := Behind(old(sValue), StringsAt(pIn.text, old(Offset())));
        if closed then
          && Looking() && cCurrent != Nothing && Offset() > old(Offset())
          && whole == Behind(sValue, StringsAt(pIn.text, Offset()))
        else Holds(whole) && enToken == Error && nError == EndOfFile
    {
      ghost var o, before := Offset(), sValue;
      closed := ReadQuoted();
      if closed {
        SkipWhitespace();
        BehindMore(before, QuotedAt(pIn.text, o + 1, false).0, StringsAt(pIn.text, Offset()));
      }
    }

    static ghost function Behind(text: string, rest: Lexeme): Lexeme {
      rest.(text := text + rest.text)
    }

    static lemma BehindMore(text: string, piece: string, rest: Lexeme)
      ensures Behind(text, Behind(piece, rest)) == Behind(text + piece, rest)
    {
      assert text + (piece + rest.text) == text + piece + rest.text;
    }

    // ----------------------------------------------------------------
    // Tokens.

    method CommitOne(kind: Kind)
      requires Valid() && Looking() && cCurrent.Ch? && Spans() && start == Offset() && kind != IValue
      modifies this`cCurrent, this`sValue, this`enToken, this`nError
      ensures Valid() && Holds(Cut(pIn.text, start, kind, start + 1))
    {
      Commit(kind);
    }

    method CommitPair(one: Kind, second: char, two: Kind)
      requires Valid() && Looking() && cCurrent.Ch? && Spans() && start == Offset() && IValue !in {one, two}
      modifies this`cCurrent, this`sValue, this`enToken, this`nError, pIn
      ensures Valid() && Holds(Pair(pIn.text, start, one, second, two))
    {
      var c := CommitLookup(one);
      if c == Ch(second) {
        Commit(two);
      }
    }

    method CommitLess()
      requires Valid() && Looking() && cCurrent.Ch? && Spans() && start == Offset()
      modifies this`cCurrent, this`sValue, this`enToken, this`nError, pIn
      ensures Valid() && Holds(LessAt(pIn.text, start))
    {
      var c := CommitLookup(Less);
      if c == Ch('=') {
        c := CommitLookup(LessEq);
        if c == Ch('>') {
          Commit(Cmp);
        }
      } else if c == Ch('>') {
        Commit(NotEq);
      }
    }

    method CommitColor(kind: Kind)
      requires Valid() && Looking() && cCurrent.Ch? && Spans() && start == Offset() && kind != IValue
      modifies this`cCurrent, this`sValue, this`enToken, this`nError, pIn
      ensures Valid() && Holds(ColorAt(pIn.text, start, kind))
    {
      var _ := CommitLookup(kind);
      LookupColor();
    }

    method CommitColon()
      requires Valid() && Looking() && cCurrent.Ch? && Spans() && start == Offset()
      modifies this`cCurrent, this`sValue, this`start, this`enToken, this`nError, pIn
      ensures Valid() && Holds(ColonAt(pIn.text, old(Offset())))
    {
      Commit(Colon);
      LookupIdentifier(Identifier);
    }

    /** `lookup_identifier` and `decode_bareword`. */
    method ReadWord(flags: Flags)
      requires Valid() && Looking() && cCurrent.Ch? && IsIdentifierFirst(cCurrent.c)
      modifies this`cCurrent, this`sValue, this`start, this`enToken, pIn
      ensures Valid() && Holds(WordAt(kw, flags, pIn.text, old(Offset())))
    {
      LookupIdentifier(Bareword);
      if !flags.xkeywords {
        var id := kw(sValue);
        if id.Some? {
          enToken := Keyword(id.value);
        }
      }
    }

    /** The part of `get_token` behind the white space. */
    method ReadToken(flags: Flags)
      requires Valid() && Looking() && cCurrent.Ch? && Spans() && start == Offset()
      modifies this`cCurrent, this`sValue, this`start, this`enToken, this`nError, this`iValue, pIn
      ensures Valid() && Holds(TokenAt(kw, flags, pIn.text, old(Offset())))
    {
      var c := cCurrent.c;
      var one, two := SingleSymbol(c), PairSymbol(c);
      if one.Some? {
        CommitOne(one.value);
      } else if two.Some? {
        CommitPair(two.value.0, two.value.1, two.value.2);
      } else {
        ReadOther(flags);
      }
    }

    /** The tokens that do not start with one of the plain symbols. */
    method ReadOther(flags: Flags)
      requires Valid() && Looking() && cCurrent.Ch? && Spans() && start == Offset()
      requires SingleSymbol(cCurrent.c).None? && PairSymbol(cCurrent.c).None?
      modifies this`cCurrent, this`sValue, this`start, this`enToken, this`nError, this`iValue, pIn
      ensures Valid() && Holds(TokenAt(kw, flags, pIn.text, old(Offset())))
    {
      var c := cCurrent.c;
      if c == '#' || c == '@' {
        var kind := if c == '#' then Sharp else At;
        if flags.color {
          CommitColor(kind);
        } else {
          CommitOne(kind);
        }
      } else if c == '<' {
        CommitLess();
      } else if c == ':' {
        CommitColon();
      } else if c == '\'' {
        LookupString();
      } else if flags.xsign && c == '+' {
        CommitOne(Add);
      } else if flags.xsign && c == '-' {
        CommitOne(Sub);
      } else if IsIdentifierFirst(c) {
        ReadWord(flags);
      } else {
        LookupNumber();
      }
    }

    /** `get_token`; without `get`, or after `unget`, the current token is returned again. */
    method GetToken(get: bool, flags: Flags) returns (token: Kind)
      requires Valid()
      modifies this, pIn
      ensures Valid() && token == enToken
      ensures !get || old(nUnget) > 0 ==>
        && (enToken, sValue, iValue, cCurrent, pIn.pos) == old((enToken, sValue, iValue, cCurrent, pIn.pos))
        && nUnget == if get then old(nUnget) - 1 else old(nUnget)
      ensures get && old(nUnget) == 0 ==>
        && nUnget == 0
        && if SkipSpace(pIn.text, old(Offset())) < |pIn.text| then Holds(Lex(kw, flags, pIn.text, old(Offset())))
           else token == EOF && nError == EndOfFile && Offset() == |pIn.text|
    {
      if !get {
        return enToken;
      } else if nUnget > 0 {
        nUnget := nUnget - 1;
        return enToken;
      }
      SkipWhitespace();
      if cCurrent.AtEnd? {
        enToken := EOF;
        nError := EndOfFile;
        return enToken;
      }
      Restart();
      ReadToken(flags);
      return enToken;
    }
  }
}
