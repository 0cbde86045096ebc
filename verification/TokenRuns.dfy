/** Runs of `get_token`: src/main/expr/Tokenizer.cpp. */
module TokenRuns {
  import opened Basics
  import opened Lexing
  import opened Tokenizers
  import opened TokenStream

  method NextKind(tz: Tokenizer, flags: Flags, ghost read: Reader) returns (k: Kind)
    requires tz.Valid() && tz.nUnget == 0 && IsLexer(read, tz.kw)
    modifies tz, tz.pIn
    ensures tz.Valid() && tz.nUnget == 0
    ensures var x := read(flags, tz.pIn.text, old(tz.Offset())); k == x.kind && tz.Offset() == x.next
  {
    assert read(flags, tz.pIn.text, tz.Offset()) == Lex(tz.kw, flags, tz.pIn.text, tz.Offset());
    k := tz.GetToken(true, flags);
  }

  method ReadTranscript(tz: Tokenizer, flags: seq<Flags>, ghost read: Reader) returns (kinds: seq<Kind>)
    requires tz.Valid() && tz.nUnget == 0 && IsLexer(read, tz.kw)
    modifies tz, tz.pIn
    ensures tz.Valid()
    ensures kinds == Kinds(Transcript(read, tz.pIn.text, old(tz.Offset()), flags))
    ensures tz.pIn.pos == OffsetAfter(read, tz.pIn.text, old(tz.Offset()), flags) + if tz.cCurrent.Ch? then 1 else 0
    decreases |flags|
  {
    if flags == [] {
      return [];
    }
    var k := NextKind(tz, flags[0], read);
    var rest := ReadTranscript(tz, flags[1..], read);
    kinds := [k] + rest;
  }

  /** The tokenizer itself: calls with the given flags give the kinds of the run and read as far
      as it does, and one character more if there is one read ahead. */
  method ReadTokens(tz: Tokenizer, flags: seq<Flags>) returns (kinds: seq<Kind>)
    requires tz.Valid() && tz.nUnget == 0
    modifies tz, tz.pIn
    ensures tz.Valid()
    ensures kinds == Kinds(Tokens(tz.kw, tz.pIn.text, old(tz.Offset()), flags))
    ensures tz.pIn.pos == RunEnd(tz.kw, tz.pIn.text, old(tz.Offset()), flags) + if tz.cCurrent.Ch? then 1 else 0
  {
    LexerIsLexer(tz.kw);
    kinds := ReadTranscript(tz, flags, Lexer(tz.kw));
  }
}
