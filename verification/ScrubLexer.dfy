/**
 The line lexer of scripts/scrub-internal-ids.py as a character-by-character
 automaton, and how it runs through whole bodies at once.
 */
module ScrubLexer {
  import opened Scanning
  import opened Text

  /** The comment syntax of a file: `//` (Go, C, proto) or `#` (Python, shell). */
  datatype Style = Slashes | Hash {
    function LineMark(): string {
      if Slashes? then "//" else "#"
    }
  }

  /** What stays open at the end of a line. */
  datatype Carry = Plain | InBlock | InRaw | InTriple(q: char)

  /**
   A piece of a line. The bodies of `Scrubbed` and `ScrubbedTail` are rewritten;
   everything else is copied. The tails run to the end of the line.
   */
  datatype Token =
    | Code(c: char)
    | Scrubbed(open: string, body: string, close: string)
    | ScrubbedTail(open: string, body: string, next: Carry)
    | Copied(text: string)
    | CopiedTail(text: string, next: Carry)

  datatype Lexed = Lexed(tokens: seq<Token>, carry: Carry)

  function Cons(t: Token, r: Lexed): Lexed {
    Lexed([t] + r.tokens, r.carry)
  }

  function TextOf(t: Token): string {
    match t
    case Code(c) => [c]
    case Scrubbed(open, body, close) => open + body + close
    case ScrubbedTail(open, body, _) => open + body
    case Copied(text) => text
    case CopiedTail(text, _) => text
  }

  /** The text of a token sequence. */
  function Flat(ts: seq<Token>): string {
    if ts == [] then "" else TextOf(ts[0]) + Flat(ts[1..])
  }

  function MapToken(t: Token, scrub: string -> string): Token {
    match t
    case Scrubbed(open, body, close) => Scrubbed(open, scrub(body), close)
    case ScrubbedTail(open, body, next) => ScrubbedTail(open, scrub(body), next)
    case _ => t
  }

  /** The same tokens with every body rewritten. */
  function Mapped(ts: seq<Token>, scrub: string -> string): (r: seq<Token>)
    ensures |r| == |ts|
  {
    if ts == [] then [] else [MapToken(ts[0], scrub)] + Mapped(ts[1..], scrub)
  }

  // ----- The automaton

  datatype Mode =
    | InCode
    | InBody(open: string, acc: string, close: string, next: Carry)
    | InLine(open: string, acc: string)
    | InRawText(acc: string)
    | InQuotes(q: char, acc: string, copied: bool)

  /** Three equal quotes at the start. */
  predicate IsTriple(s: string) {
    |s| >= 3 && IsQuote(s[0]) && s[1] == s[0] && s[2] == s[0]
  }

  function QuotedToken(q: char, body: string, copied: bool): Token {
    if copied then Copied([q] + body + [q]) else Scrubbed([q], body, [q])
  }

  /** In code: what starts at the first character of `s`. */
  function LexCode(s: string, st: Style): Lexed
    requires s != ""
    decreases |s|, 0
  {
    if st.Hash? && IsTriple(s) then
      Lex(s[3..], InBody(s[..3], "", s[..3], InTriple(s[0])), st)
    else if st.LineMark() <= s then
      Lex(s[|st.LineMark()|..], InLine(st.LineMark(), ""), st)
    else if st.Slashes? && "/*" <= s then
      Lex(s[2..], InBody("/*", "", "*/", InBlock), st)
    else if st.Slashes? && s[0] == '`' then
      Lex(s[1..], InRawText("`"), st)
    else if IsQuote(s[0]) then
      if CloseAt(s[1..], s[0]).None? then Lexed([CopiedTail(s, Plain)], Plain)
      else Lex(s[1..], InQuotes(s[0], "", st.Slashes? && s[0] == '\''), st)
    else
      Cons(Code(s[0]), Lex(s[1..], InCode, st))
  }

  /** The automaton: each step takes one character, or one delimiter. */
  function Lex(s: string, m: Mode, st: Style): Lexed
    decreases |s|, 1, if m.InCode? then 0 else 1
  {
    match m
    case InCode =>
      if s == "" then Lexed([], Plain) else LexCode(s, st)
    case InBody(open, acc, close, next) =>
      if close <= s then Cons(Scrubbed(open, acc, close), Lex(s[|close|..], InCode, st))
      else if s == "" then Lexed([ScrubbedTail(open, acc, next)], next)
      else Lex(s[1..], InBody(open, acc + [s[0]], close, next), st)
    case InLine(open, acc) =>
      if s == "" then Lexed([ScrubbedTail(open, acc, Plain)], Plain)
      else Lex(s[1..], InLine(open, acc + [s[0]]), st)
    case InRawText(acc) =>
      if s == "" then Lexed([CopiedTail(acc, InRaw)], InRaw)
      else if s[0] == '`' then Cons(Copied(acc + "`"), Lex(s[1..], InCode, st))
      else Lex(s[1..], InRawText(acc + [s[0]]), st)
    case InQuotes(q, acc, copied) =>
      if s == "" then Lexed([CopiedTail([q] + acc, Plain)], Plain)
      else if s[0] == '\\' && |s| > 1 then Lex(s[2..], InQuotes(q, acc + s[..2], copied), st)
      else if s[0] == q then Cons(QuotedToken(q, acc, copied), Lex(s[1..], InCode, st))
      else Lex(s[1..], InQuotes(q, acc + [s[0]], copied), st)
  }

  function StartMode(c: Carry): Mode {
    match c
    case Plain => InCode
    case InBlock => InBody("", "", "*/", InBlock)
    case InRaw => InRawText("")
    case InTriple(q) => InBody("", "", [q, q, q], InTriple(q))
  }

  function LexLine(line: string, carry: Carry, st: Style): Lexed {
    Lex(line, StartMode(carry), st)
  }

  // ----- Running through a whole body at once

  lemma {:induction false} BodyClosed(b: string, rest: string, open: string, acc: string, close: string, next: Carry, st: Style)
    requires close != "" && FirstClose(b, close)
    ensures Lex(b + close + rest, InBody(open, acc, close, next), st)
         == Cons(Scrubbed(open, acc + b, close), Lex(rest, InCode, st))
  {
    var s := b + close + rest;
    if b == "" {
      assert s == close + rest && s[|close|..] == rest && acc + b == acc;
    } else {
      NotAtStart(b, close, rest);
      ShorterFirstClose(b, close);
      assert s[1..] == b[1..] + close + rest;
      assert acc + b == acc + [b[0]] + b[1..];
      BodyClosed(b[1..], rest, open, acc + [b[0]], close, next, st);
    }
  }

  lemma {:induction false} BodyOpen(b: string, open: string, acc: string, close: string, next: Carry, st: Style)
    requires close != "" && NoClose(b, close)
    ensures Lex(b, InBody(open, acc, close, next), st) == Lexed([ScrubbedTail(open, acc + b, next)], next)
  {
    assert !At(b, close, 0);
    if b == "" {
      assert acc + b == acc;
    } else {
      ShorterNoClose(b, close);
      assert acc + b == acc + [b[0]] + b[1..];
      BodyOpen(b[1..], open, acc + [b[0]], close, next, st);
    }
  }

  lemma {:induction false} LineRun(b: string, open: string, acc: string, st: Style)
    ensures Lex(b, InLine(open, acc), st) == Lexed([ScrubbedTail(open, acc + b, Plain)], Plain)
  {
    if b == "" {
      assert acc + b == acc;
    } else {
      assert acc + b == acc + [b[0]] + b[1..];
      LineRun(b[1..], open, acc + [b[0]], st);
    }
  }

  lemma {:induction false} RawClosed(b: string, rest: string, acc: string, st: Style)
    requires '`' !in b
    ensures Lex(b + "`" + rest, InRawText(acc), st) == Cons(Copied(acc + b + "`"), Lex(rest, InCode, st))
  {
    var s := b + "`" + rest;
    if b == "" {
      assert s[0] == '`' && s[1..] == rest && acc + b == acc;
    } else {
      assert s[1..] == b[1..] + "`" + rest;
      assert acc + b == acc + [b[0]] + b[1..];
      RawClosed(b[1..], rest, acc + [b[0]], st);
    }
  }

  lemma {:induction false} RawOpen(b: string, acc: string, st: Style)
    requires '`' !in b
    ensures Lex(b, InRawText(acc), st) == Lexed([CopiedTail(acc + b, InRaw)], InRaw)
  {
    if b == "" {
      assert acc + b == acc;
    } else {
      assert acc + b == acc + [b[0]] + b[1..];
      RawOpen(b[1..], acc + [b[0]], st);
    }
  }

  lemma {:induction false} QuotesClosed(b: string, rest: string, q: char, acc: string, o: bool, st: Style)
    requires IsQuote(q) && QuotedBody(b, q)
    ensures Lex(b + [q] + rest, InQuotes(q, acc, o), st) == Cons(QuotedToken(q, acc + b, o), Lex(rest, InCode, st))
  {
    var s := b + [q] + rest;
    if b == "" {
      assert s[0] == q && s[1..] == rest && acc + b == acc;
    } else if b[0] == '\\' {
      assert s[2..] == b[2..] + [q] + rest && s[..2] == b[..2];
      assert acc + b == acc + b[..2] + b[2..];
      QuotesClosed(b[2..], rest, q, acc + b[..2], o, st);
    } else {
      assert s[1..] == b[1..] + [q] + rest;
      assert acc + b == acc + [b[0]] + b[1..];
      QuotesClosed(b[1..], rest, q, acc + [b[0]], o, st);
    }
  }
}
