/**
 The grammar of lexed lines. The automaton of ScrubLexer produces exactly the
 derivation of each line, and there is only one, so a rewritten line lexes to the
 rewritten tokens exactly when these still follow the grammar.
 */
module ScrubGrammar {
  import opened Scanning
  import opened ScrubLexer

  /** A comment or literal starts at the first character. */
  predicate Opens(s: string, st: Style) {
    s != "" &&
    (IsQuote(s[0]) || st.LineMark() <= s || (st.Slashes? && ("/*" <= s || s[0] == '`')))
  }

  predicate IsTail(t: Token) {
    t.ScrubbedTail? || t.CopiedTail?
  }

  predicate IsTripleMark(s: string) {
    |s| == 3 && IsTriple(s)
  }

  /** A rewritten piece with its delimiters; in `#` files a quote must not read as a triple quote. */
  ghost predicate ScrubbedOk(open: string, b: string, close: string, rest: string, st: Style) {
    || (st.Hash? && IsTripleMark(open) && close == open && FirstClose(b, close))
    || (st.Slashes? && open == "/*" && close == "*/" && FirstClose(b, close))
    || (&& |open| == 1 && IsQuote(open[0]) && close == open
        && (st.Slashes? ==> open[0] == '"')
        && QuotedBody(b, open[0])
        && (st.Hash? ==> !IsTriple(open + b + close + rest)))
  }

  ghost predicate ScrubbedTailOk(open: string, b: string, next: Carry, st: Style) {
    || (open == st.LineMark() && next == Plain)
    || (st.Slashes? && open == "/*" && next == InBlock && NoClose(b, "*/"))
    || (st.Hash? && IsTripleMark(open) && next == InTriple(open[0]) && NoClose(b, open))
  }

  /** A raw string or a character literal of Go and C. */
  predicate CopiedOk(text: string, st: Style) {
    && st.Slashes? && |text| >= 2 && text[|text| - 1] == text[0]
    && var b := text[1..|text| - 1];
       (text[0] == '`' && '`' !in b) || (text[0] == '\'' && QuotedBody(b, '\''))
  }

  predicate CopiedTailOk(text: string, next: Carry, st: Style) {
    text != "" &&
    (|| (st.Slashes? && text[0] == '`' && '`' !in text[1..] && next == InRaw)
     || (&& IsQuote(text[0]) && CloseAt(text[1..], text[0]).None? && next == Plain
         && (st.Hash? ==> !IsTriple(text))))
  }

  /** `t` may stand in code position before `rest`. */
  ghost predicate TokenOk(t: Token, rest: string, st: Style) {
    match t
    case Code(c) => !Opens([c] + rest, st)
    case Scrubbed(open, b, close) => ScrubbedOk(open, b, close, rest, st)
    case ScrubbedTail(open, b, next) => ScrubbedTailOk(open, b, next, st) && rest == ""
    case Copied(text) => CopiedOk(text, st)
    case CopiedTail(text, next) => CopiedTailOk(text, next, st) && rest == ""
  }

  /** Tokens in code position; `next` stays open at the end of the line. */
  ghost predicate CodeTokens(ts: seq<Token>, st: Style, next: Carry) {
    if ts == [] then next == Plain
    else
      && TokenOk(ts[0], Flat(ts[1..]), st)
      && if IsTail(ts[0]) then |ts| == 1 && next == ts[0].next else CodeTokens(ts[1..], st, next)
  }

  /** The mark that ends what was left open on an earlier line. */
  function CloseMark(carry: Carry): string {
    match carry
    case Plain => ""
    case InBlock => "*/"
    case InRaw => "`"
    case InTriple(q) => [q, q, q]
  }

  /** The token that continues what was left open. */
  ghost predicate LeadOk(t: Token, carry: Carry) {
    match t
    case Scrubbed(open, b, close) =>
      (carry.InBlock? || carry.InTriple?) && open == "" && close == CloseMark(carry) && FirstClose(b, close)
    case ScrubbedTail(open, b, next) =>
      (carry.InBlock? || carry.InTriple?) && open == "" && next == carry && NoClose(b, CloseMark(carry))
    case Copied(text) =>
      carry.InRaw? && text != "" && text[|text| - 1] == '`' && '`' !in text[..|text| - 1]
    case CopiedTail(text, next) => carry.InRaw? && next == carry && '`' !in text
    case Code(_) => false
  }

  ghost predicate Derives(ts: seq<Token>, carry: Carry, st: Style, next: Carry) {
    if carry.Plain? then CodeTokens(ts, st, next)
    else
      && ts != [] && LeadOk(ts[0], carry)
      && if IsTail(ts[0]) then |ts| == 1 && next == ts[0].next else CodeTokens(ts[1..], st, next)
  }

  // ----- One token

  lemma Peel(open: string, x: string, y: string, z: string)
    requires open != ""
    ensures var s := open + x + y + z;
            s != "" && s[..|open|] == open && s[|open|..] == x + y + z && forall i :: 0 <= i < |open| ==> s[i] == open[i]
  {
    assert open + x + y + z == open + (x + y + z);
  }

  lemma ScrubbedLexed(open: string, b: string, close: string, rest: string, st: Style)
    requires ScrubbedOk(open, b, close, rest, st)
    ensures Lex(open + b + close + rest, InCode, st) == Cons(Scrubbed(open, b, close), Lex(rest, InCode, st))
  {
    if |open| == 1 {
      assert open == [open[0]] && close == [open[0]];
      QuotedLexed(open[0], b, rest, st, false);
    } else if st.Hash? {
      TripleLexed(open, b, rest);
    } else {
      BlockLexed(b, rest);
    }
  }

  lemma TripleLexed(open: string, b: string, rest: string)
    requires IsTripleMark(open) && FirstClose(b, open)
    ensures Lex(open + b + open + rest, InCode, Hash) == Cons(Scrubbed(open, b, open), Lex(rest, InCode, Hash))
  {
    hide FirstClose;
    var s := open + b + open + rest;
    Peel(open, b, open, rest);
    assert LexCode(s, Hash) == Lex(s[3..], InBody(open, "", open, InTriple(s[0])), Hash) by { hide Lex; }
    hide LexCode;
    BodyClosed(b, rest, open, "", open, InTriple(s[0]), Hash);
    assert "" + b == b;
  }

  lemma BlockLexed(b: string, rest: string)
    requires FirstClose(b, "*/")
    ensures Lex("/*" + b + "*/" + rest, InCode, Slashes) == Cons(Scrubbed("/*", b, "*/"), Lex(rest, InCode, Slashes))
  {
    hide FirstClose;
    var s := "/*" + b + "*/" + rest;
    Peel("/*", b, "*/", rest);
    assert s[0] == '/' && s[1] == '*';
    assert LexCode(s, Slashes) == Lex(s[2..], InBody("/*", "", "*/", InBlock), Slashes) by { hide Lex; }
    hide LexCode;
    BodyClosed(b, rest, "/*", "", "*/", InBlock, Slashes);
    assert "" + b == b;
  }

  lemma QuotedLexed(q: char, b: string, rest: string, st: Style, copied: bool)
    requires IsQuote(q) && QuotedBody(b, q) && copied == (st.Slashes? && q == '\'')
    requires st.Hash? ==> !IsTriple([q] + b + [q] + rest)
    ensures Lex([q] + b + [q] + rest, InCode, st) == Cons(QuotedToken(q, b, copied), Lex(rest, InCode, st))
  {
    var s := [q] + b + [q] + rest;
    assert s[0] == q && s[1..] == b + [q] + rest;
    assert CloseAt(s[1..], q).Some? by {
      assert s[1..][..|b|] == b && s[1..][|b|] == q;
      CloseAtBody(s[1..], q, |b|);
    }
    assert LexCode(s, st) == Lex(s[1..], InQuotes(q, "", copied), st) by { hide Lex, CloseAt; }
    hide LexCode;
    QuotesClosed(b, rest, q, "", copied, st);
    assert "" + b == b;
  }

  lemma ScrubbedTailLexed(open: string, b: string, next: Carry, st: Style)
    requires ScrubbedTailOk(open, b, next, st)
    ensures Lex(open + b, InCode, st) == Lexed([ScrubbedTail(open, b, next)], next)
  {
    hide NoClose, Lex;
    if open == st.LineMark() {
      LineTailLexed(b, st);
    } else {
      OpenTailLexed(open, b, next, st);
    }
  }

  lemma PeelTail(open: string, b: string)
    requires open != ""
    ensures var s := open + b;
            s != "" && s[..|open|] == open && s[|open|..] == b && forall i :: 0 <= i < |open| ==> s[i] == open[i]
  {
  }

  lemma LineTailLexed(b: string, st: Style)
    ensures Lex(st.LineMark() + b, InCode, st) == Lexed([ScrubbedTail(st.LineMark(), b, Plain)], Plain)
  {
    var open := st.LineMark();
    var s := open + b;
    PeelTail(open, b);
    assert s[0] == open[0] && (st.Slashes? ==> s[1] == '/');
    assert LexCode(s, st) == Lex(b, InLine(open, ""), st) by { hide Lex; }
    hide LexCode;
    LineRun(b, open, "", st);
    assert "" + b == b;
  }

  lemma OpenTailLexed(open: string, b: string, next: Carry, st: Style)
    requires ScrubbedTailOk(open, b, next, st) && open != st.LineMark()
    ensures Lex(open + b, InCode, st) == Lexed([ScrubbedTail(open, b, next)], next)
  {
    hide NoClose;
    var s := open + b;
    var close := if st.Hash? then open else "*/";
    PeelTail(open, b);
    assert s[0] == open[0] && s[1] == open[1] && (st.Hash? ==> s[2] == open[2]);
    assert LexCode(s, st) == Lex(b, InBody(open, "", close, next), st) by { hide Lex; }
    hide LexCode;
    BodyOpen(b, open, "", close, next, st);
    assert "" + b == b;
  }

  lemma CopiedLexed(text: string, rest: string, st: Style)
    requires CopiedOk(text, st)
    ensures Lex(text + rest, InCode, st) == Cons(Copied(text), Lex(rest, InCode, st))
  {
    var b := text[1..|text| - 1];
    assert text == [text[0]] + b + [text[0]];
    if text[0] == '`' {
      var s := text + rest;
      assert s[0] == '`' && s[1..] == b + "`" + rest;
      RawClosed(b, rest, "`", st);
    } else {
      QuotedLexed('\'', b, rest, st, true);
    }
  }

  lemma CopiedTailLexed(text: string, next: Carry, st: Style)
    requires CopiedTailOk(text, next, st)
    ensures Lex(text, InCode, st) == Lexed([CopiedTail(text, next)], next)
  {
    if st.Slashes? && text[0] == '`' {
      RawOpen(text[1..], "`", st);
      assert text == "`" + text[1..];
    }
  }

  /** The automaton reads exactly the token that the grammar puts first. */
  lemma TokenLexed(t: Token, rest: string, st: Style)
    requires TokenOk(t, rest, st)
    ensures IsTail(t) ==> Lex(TextOf(t) + rest, InCode, st) == Lexed([t], t.next)
    ensures !IsTail(t) ==> Lex(TextOf(t) + rest, InCode, st) == Cons(t, Lex(rest, InCode, st))
  {
    match t
    case Code(c) =>
      assert ([c] + rest)[1..] == rest;
    case Scrubbed(open, b, close) => ScrubbedLexed(open, b, close, rest, st);
    case ScrubbedTail(open, b, next) =>
      assert TextOf(t) + rest == open + b;
      ScrubbedTailLexed(open, b, next, st);
    case Copied(text) => CopiedLexed(text, rest, st);
    case CopiedTail(text, next) =>
      assert TextOf(t) + rest == text;
      CopiedTailLexed(text, next, st);
  }

  lemma LeadLexed(t: Token, rest: string, carry: Carry, st: Style)
    requires LeadOk(t, carry) && (IsTail(t) ==> rest == "")
    ensures IsTail(t) ==> LexLine(TextOf(t) + rest, carry, st) == Lexed([t], t.next)
    ensures !IsTail(t) ==> LexLine(TextOf(t) + rest, carry, st) == Cons(t, Lex(rest, InCode, st))
  {
    match t
    case Scrubbed(open, b, close) =>
      assert TextOf(t) == b + close && "" + b == b;
      BodyClosed(b, rest, "", "", close, carry, st);
    case ScrubbedTail(open, b, next) =>
      assert TextOf(t) + rest == b && "" + b == b;
      BodyOpen(b, "", "", CloseMark(carry), carry, st);
    case Copied(text) =>
      var b := text[..|text| - 1];
      assert text == b + "`" && "" + b == b;
      RawClosed(b, rest, "", st);
    case CopiedTail(text, next) =>
      assert text + rest == text && "" + text == text;
      RawOpen(text, "", st);
  }

  // ----- Whole lines

  lemma {:induction false} CodeUnambiguous(ts: seq<Token>, st: Style, next: Carry)
    requires CodeTokens(ts, st, next)
    ensures Lex(Flat(ts), InCode, st) == Lexed(ts, next)
  {
    if ts != [] {
      hide Lex, TokenOk, TextOf;
      TokenLexed(ts[0], Flat(ts[1..]), st);
      if IsTail(ts[0]) {
        assert ts == [ts[0]];
      } else {
        CodeUnambiguous(ts[1..], st, next);
        assert ts == [ts[0]] + ts[1..];
      }
    }
  }

  /** A line has no second reading: any derivation of its text is what the automaton finds. */
  lemma Unambiguous(ts: seq<Token>, carry: Carry, st: Style, next: Carry)
    requires Derives(ts, carry, st, next)
    ensures LexLine(Flat(ts), carry, st) == Lexed(ts, next)
  {
    hide Lex, LeadOk;
    if carry.Plain? {
      CodeUnambiguous(ts, st, next);
    } else {
      LeadLexed(ts[0], Flat(ts[1..]), carry, st);
      assert ts == [ts[0]] + ts[1..];
      if !IsTail(ts[0]) {
        CodeUnambiguous(ts[1..], st, next);
      }
    }
  }

  lemma {:induction false} CutRaw(s: string) returns (closed: bool, b: string, rest: string)
    ensures '`' !in b
    ensures if closed then s == b + "`" + rest else s == b
  {
    if s == "" {
      closed, b, rest := false, "", "";
    } else if s[0] == '`' {
      closed, b, rest := true, "", s[1..];
    } else {
      closed, b, rest := CutRaw(s[1..]);
      b := [s[0]] + b;
    }
  }

  /** Every non-empty text in code position starts with a token of the grammar. */
  lemma FirstToken(s: string, st: Style) returns (t: Token, rest: string)
    requires s != ""
    ensures s == TextOf(t) + rest && TokenOk(t, rest, st) && TextOf(t) != ""
  {
    if !Opens(s, st) {
      t, rest := Code(s[0]), s[1..];
      assert s == [s[0]] + s[1..];
    } else if (st.Hash? && IsTriple(s)) || (st.Slashes? && "/*" <= s) {
      t, rest := BodyToken(s, st);
    } else if st.LineMark() <= s {
      var k := |st.LineMark()|;
      t, rest := ScrubbedTail(s[..k], s[k..], Plain), "";
      assert s == s[..k] + s[k..] + "";
    } else if s[0] == '`' {
      t, rest := RawToken(s, st);
    } else {
      t, rest := QuoteToken(s, st);
    }
  }

  lemma BodyToken(s: string, st: Style) returns (t: Token, rest: string)
    requires (st.Hash? && IsTriple(s)) || (st.Slashes? && "/*" <= s)
    ensures s == TextOf(t) + rest && TokenOk(t, rest, st) && TextOf(t) != ""
  {
    var k := if st.Hash? then 3 else 2;
    var open := s[..k];
    var close := if st.Hash? then open else "*/";
    assert s == open + s[k..];
    var closed, b;
    closed, b, rest := CutBody(s[k..], close);
    if closed {
      t := Scrubbed(open, b, close);
    } else {
      t, rest := ScrubbedTail(open, b, if st.Hash? then InTriple(open[0]) else InBlock), "";
    }
  }

  lemma RawToken(s: string, st: Style) returns (t: Token, rest: string)
    requires st.Slashes? && s != "" && s[0] == '`'
    ensures s == TextOf(t) + rest && TokenOk(t, rest, st) && TextOf(t) != ""
  {
    var closed, b;
    closed, b, rest := CutRaw(s[1..]);
    if closed {
      var text := "`" + b + "`";
      assert text[1..|text| - 1] == b;
      t := Copied(text);
    } else {
      t, rest := CopiedTail(s, InRaw), "";
    }
  }

  lemma QuoteToken(s: string, st: Style) returns (t: Token, rest: string)
    requires s != "" && IsQuote(s[0]) && (st.Hash? ==> !IsTriple(s))
    ensures s == TextOf(t) + rest && TokenOk(t, rest, st) && TextOf(t) != ""
  {
    var q := s[0];
    var at := CloseAt(s[1..], q);
    if at.None? {
      t, rest := CopiedTail(s, Plain), "";
    } else {
      var e := at.value;
      CloseAtBody(s[1..], q, e);
      var b := s[1..][..e];
      rest := s[e + 2..];
      assert s == [q] + b + [q] + rest;
      if st.Slashes? && q == '\'' {
        var text := [q] + b + [q];
        assert text[1..|text| - 1] == b;
        t := Copied(text);
      } else {
        t := Scrubbed([q], b, [q]);
      }
    }
  }

  lemma {:induction false} CodeComplete(s: string, st: Style)
    ensures var r := Lex(s, InCode, st); CodeTokens(r.tokens, st, r.carry) && Flat(r.tokens) == s
    decreases |s|
  {
    if s != "" {
      hide TokenOk, LexCode;
      var t, rest := FirstToken(s, st);
      TokenLexed(t, rest, st);
      if IsTail(t) {
        TailRest(t, rest, st);
        assert TextOf(t) + rest == TextOf(t);
      } else {
        CodeComplete(rest, st);
        FlatCons(t, Lex(rest, InCode, st));
      }
    }
  }

  lemma TailRest(t: Token, rest: string, st: Style)
    requires TokenOk(t, rest, st) && IsTail(t)
    ensures rest == "" && Flat([t]) == TextOf(t)
  {
  }

  lemma FlatCons(t: Token, r: Lexed)
    ensures Cons(t, r).tokens[1..] == r.tokens && Cons(t, r).tokens[0] == t
  {
  }

  /** Whatever was left open, the line starts with a token that continues it. */
  lemma LeadToken(s: string, carry: Carry) returns (t: Token, rest: string)
    requires !carry.Plain?
    ensures s == TextOf(t) + rest && LeadOk(t, carry) && (IsTail(t) ==> rest == "")
  {
    var closed, b;
    if carry.InRaw? {
      closed, b, rest := CutRaw(s);
      if closed {
        t := Copied(b + "`");
      } else {
        t, rest := CopiedTail(s, InRaw), "";
      }
    } else {
      var close := CloseMark(carry);
      closed, b, rest := CutBody(s, close);
      if closed {
        t := Scrubbed("", b, close);
        assert "" + b + close == b + close;
      } else {
        t, rest := ScrubbedTail("", b, carry), "";
        assert "" + b + rest == s;
      }
    }
  }

  /** The automaton loses nothing and always produces a derivation of the line. */
  lemma Complete(line: string, carry: Carry, st: Style)
    ensures var r := LexLine(line, carry, st);
            Derives(r.tokens, carry, st, r.carry) && Flat(r.tokens) == line
  {
    hide Lex, LeadOk, TextOf;
    if carry.Plain? {
      CodeComplete(line, st);
    } else {
      var t, rest := LeadToken(line, carry);
      LeadLexed(t, rest, carry, st);
      if IsTail(t) {
        assert TextOf(t) + rest == TextOf(t);
        assert Flat([t]) == TextOf(t) + "";
      } else {
        CodeComplete(rest, st);
        FlatCons(t, Lex(rest, InCode, st));
      }
    }
  }

  // ----- Rewriting the bodies

  /** The line with every body rewritten and everything else copied in order. */
  function Rewritten(line: string, carry: Carry, st: Style, scrub: string -> string): string {
    Flat(Mapped(LexLine(line, carry, st).tokens, scrub))
  }

  /** A rewriting touches bodies only: delimiters, code and copied text stay, in order. */
  lemma {:induction false} OnlyBodiesChange(ts: seq<Token>, scrub: string -> string, i: nat)
    requires i < |ts|
    ensures var t, u := ts[i], Mapped(ts, scrub)[i];
            && (t.Code? || t.Copied? || t.CopiedTail? ==> u == t)
            && (t.Scrubbed? ==> u == Scrubbed(t.open, scrub(t.body), t.close))
            && (t.ScrubbedTail? ==> u == ScrubbedTail(t.open, scrub(t.body), t.next))
  {
    if i > 0 { OnlyBodiesChange(ts[1..], scrub, i - 1); }
  }

  lemma {:induction false} MappedIdentity(ts: seq<Token>, scrub: string -> string)
    requires forall b: string :: scrub(b) == b
    ensures Mapped(ts, scrub) == ts
  {
    if ts != [] { MappedIdentity(ts[1..], scrub); }
  }

  /** With nothing to scrub, a line comes out as it went in. */
  lemma IdentityRewrite(line: string, carry: Carry, st: Style, scrub: string -> string)
    requires forall b: string :: scrub(b) == b
    ensures Rewritten(line, carry, st, scrub) == line
  {
    hide LexLine;
    Complete(line, carry, st);
    MappedIdentity(LexLine(line, carry, st).tokens, scrub);
  }

  /**
   A rewritten line lexes to the rewritten tokens, with the same state carried on,
   exactly when these tokens still follow the grammar.
   */
  lemma RelexExactly(line: string, carry: Carry, st: Style, scrub: string -> string)
    ensures var r := LexLine(line, carry, st);
            var ts := Mapped(r.tokens, scrub);
            LexLine(Flat(ts), carry, st) == Lexed(ts, r.carry) <==> Derives(ts, carry, st, r.carry)
  {
    hide LexLine, Derives;
    var r := LexLine(line, carry, st);
    var ts := Mapped(r.tokens, scrub);
    Complete(Flat(ts), carry, st);
    if Derives(ts, carry, st, r.carry) {
      Unambiguous(ts, carry, st, r.carry);
    }
  }
}
