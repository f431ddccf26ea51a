/**
 What the rewriter does with each form of comment and string, in literal characters:
 which texts are scrubbed, which are copied, and what stays open for the next line.
 */
module ScrubSyntax {
  import opened Scanning
  import opened Text
  import opened ScrubLexer
  import opened ScrubGrammar

  /** The line is rewritten to `text`, and `next` stays open. */
  ghost predicate Becomes(line: string, carry: Carry, st: Style, scrub: string -> string, text: string, next: Carry) {
    Rewritten(line, carry, st, scrub) == text && LexLine(line, carry, st).carry == next
  }

  /** `line` is rewritten to `text` and then goes on as `rest` does on a line of its own. */
  ghost predicate GoesOn(line: string, carry: Carry, st: Style, scrub: string -> string, text: string, rest: string) {
    Becomes(line, carry, st, scrub, text + Rewritten(rest, Plain, st, scrub), LexLine(rest, Plain, st).carry)
  }

  // ----- From tokens to text

  lemma MappedCons(t: Token, ts: seq<Token>, scrub: string -> string)
    ensures Flat(Mapped([t] + ts, scrub)) == TextOf(MapToken(t, scrub)) + Flat(Mapped(ts, scrub))
  {
    hide TextOf, MapToken;
    assert ([t] + ts)[1..] == ts;
    assert Mapped([t] + ts, scrub)[1..] == Mapped(ts, scrub);
  }

  lemma TokenGoesOn(t: Token, rest: string, st: Style, scrub: string -> string)
    requires TokenOk(t, rest, st) && !IsTail(t)
    ensures GoesOn(TextOf(t) + rest, Plain, st, scrub, TextOf(MapToken(t, scrub)), rest)
  {
    hide Lex, TokenOk, TextOf, MapToken, Flat, Mapped;
    TokenLexed(t, rest, st);
    MappedCons(t, Lex(rest, InCode, st).tokens, scrub);
  }

  lemma TokenEnds(t: Token, st: Style, scrub: string -> string)
    requires TokenOk(t, "", st) && IsTail(t)
    ensures Becomes(TextOf(t), Plain, st, scrub, TextOf(MapToken(t, scrub)), t.next)
  {
    hide Lex, TokenOk, TextOf, MapToken;
    TokenLexed(t, "", st);
    assert TextOf(t) + "" == TextOf(t);
    MappedCons(t, [], scrub);
    assert [t] + [] == [t] && Flat(Mapped([], scrub)) == "";
    assert TextOf(MapToken(t, scrub)) + "" == TextOf(MapToken(t, scrub));
  }

  lemma LeadGoesOn(t: Token, rest: string, carry: Carry, st: Style, scrub: string -> string)
    requires LeadOk(t, carry) && !IsTail(t)
    ensures GoesOn(TextOf(t) + rest, carry, st, scrub, TextOf(MapToken(t, scrub)), rest)
  {
    hide Lex, LeadOk, TextOf, MapToken, Flat, Mapped;
    LeadLexed(t, rest, carry, st);
    MappedCons(t, Lex(rest, InCode, st).tokens, scrub);
  }

  lemma LeadEnds(t: Token, carry: Carry, st: Style, scrub: string -> string)
    requires LeadOk(t, carry) && IsTail(t)
    ensures Becomes(TextOf(t), carry, st, scrub, TextOf(MapToken(t, scrub)), t.next)
  {
    hide Lex, LeadOk, TextOf, MapToken;
    LeadLexed(t, "", carry, st);
    assert TextOf(t) + "" == TextOf(t);
    MappedCons(t, [], scrub);
    assert [t] + [] == [t] && Flat(Mapped([], scrub)) == "";
    assert TextOf(MapToken(t, scrub)) + "" == TextOf(MapToken(t, scrub));
  }

  // ----- Code

  /** No character that can open a comment or a literal. */
  predicate NoMarks(a: string, st: Style) {
    forall c :: c in a ==> if st.Hash? then c !in ['"', '\'', '#'] else c !in ['"', '\'', '`', '/']
  }

  /** Code is copied. */
  lemma {:induction false} CodeCopied(a: string, s: string, st: Style, scrub: string -> string)
    requires NoMarks(a, st)
    ensures GoesOn(a + s, Plain, st, scrub, a, s)
  {
    hide LexLine, Rewritten;
    if a == "" {
      assert a + s == s && "" + Rewritten(s, Plain, st, scrub) == Rewritten(s, Plain, st, scrub);
    } else {
      var c, r := a[0], a[1..];
      CodeCopied(r, s, st, scrub);
      assert a == [c] + r && c in a && forall x :: x in r ==> x in a;
      PlainChar(c, r + s, st);
      TokenGoesOn(Code(c), r + s, st, scrub);
      ConcatAssoc([c], r, s);
      ConcatAssoc([c], r, Rewritten(s, Plain, st, scrub));
    }
  }

  lemma PlainChar(c: char, rest: string, st: Style)
    requires if st.Hash? then c !in ['"', '\'', '#'] else c !in ['"', '\'', '`', '/']
    ensures TokenOk(Code(c), rest, st)
  {
    assert ([c] + rest)[0] == c;
  }

  // ----- Comments to the end of the line

  /** In Python and shell files the text after a hash sign is scrubbed. */
  lemma HashComment(a: string, b: string, scrub: string -> string)
    requires NoMarks(a, Hash)
    ensures Becomes(a + "#" + b, Plain, Hash, scrub, a + "#" + scrub(b), Plain)
  {
    hide Rewritten, LexLine;
    TokenEnds(ScrubbedTail("#", b, Plain), Hash, scrub);
    CodeCopied(a, "#" + b, Hash, scrub);
    ConcatAssoc(a, "#", b);
    ConcatAssoc(a, "#", scrub(b));
  }

  /** In Go and C files the text after two slashes is scrubbed. */
  lemma SlashComment(a: string, b: string, scrub: string -> string)
    requires NoMarks(a, Slashes)
    ensures Becomes(a + "//" + b, Plain, Slashes, scrub, a + "//" + scrub(b), Plain)
  {
    hide Rewritten, LexLine;
    TokenEnds(ScrubbedTail("//", b, Plain), Slashes, scrub);
    CodeCopied(a, "//" + b, Slashes, scrub);
    ConcatAssoc(a, "//", b);
    ConcatAssoc(a, "//", scrub(b));
  }

  // ----- Comments and strings with closing marks

  lemma NoQuoteClose(b: string, q: char)
    requires q !in b
    ensures FirstClose(b, [q, q, q]) && NoClose(b, [q, q, q])
  {
    var m := [q, q, q];
    forall i: nat ensures !At(b, m, i) { assert i + 3 <= |b| ==> b[i..i + 3][0] in b; }
    forall i: nat | i < |b| ensures !At(b + m, m, i) {
      assert (b + m)[i] == b[i] && b[i] in b;
      assert i + 3 <= |b + m| ==> (b + m)[i..i + 3][0] == b[i];
    }
  }

  /** A block comment is scrubbed up to its end, or stays open; a continued one likewise. */
  lemma BlockComment(b: string, rest: string, scrub: string -> string)
    requires '*' !in b
    ensures GoesOn("/*" + b + "*/" + rest, Plain, Slashes, scrub, "/*" + scrub(b) + "*/", rest)
    ensures Becomes("/*" + b, Plain, Slashes, scrub, "/*" + scrub(b), InBlock)
    ensures GoesOn(b + "*/" + rest, InBlock, Slashes, scrub, scrub(b) + "*/", rest)
    ensures Becomes(b, InBlock, Slashes, scrub, scrub(b), InBlock)
  {
    hide GoesOn, Becomes, FirstClose, NoClose;
    NoStarClose(b);
    TokenGoesOn(Scrubbed("/*", b, "*/"), rest, Slashes, scrub);
    TokenEnds(ScrubbedTail("/*", b, InBlock), Slashes, scrub);
    LeadGoesOn(Scrubbed("", b, "*/"), rest, InBlock, Slashes, scrub);
    LeadEnds(ScrubbedTail("", b, InBlock), InBlock, Slashes, scrub);
    NoOpening(b, "*/", scrub(b));
  }

  lemma NoOpening(b: string, close: string, c: string)
    ensures "" + b + close == b + close && "" + c + close == c + close && "" + b == b && "" + c == c
  {
  }

  /** A triple-quoted string of Python is scrubbed up to its end, or stays open; a continued one likewise. */
  lemma TripleString(q: char, b: string, rest: string, scrub: string -> string)
    requires q in ['"', '\''] && q !in b
    ensures var m := [q, q, q];
            && GoesOn(m + b + m + rest, Plain, Hash, scrub, m + scrub(b) + m, rest)
            && Becomes(m + b, Plain, Hash, scrub, m + scrub(b), InTriple(q))
            && GoesOn(b + m + rest, InTriple(q), Hash, scrub, scrub(b) + m, rest)
            && Becomes(b, InTriple(q), Hash, scrub, scrub(b), InTriple(q))
  {
    hide GoesOn, Becomes, FirstClose, NoClose;
    var m := [q, q, q];
    NoQuoteClose(b, q);
    TokenGoesOn(Scrubbed(m, b, m), rest, Hash, scrub);
    TokenEnds(ScrubbedTail(m, b, InTriple(q)), Hash, scrub);
    LeadGoesOn(Scrubbed("", b, m), rest, InTriple(q), Hash, scrub);
    LeadEnds(ScrubbedTail("", b, InTriple(q)), InTriple(q), Hash, scrub);
    NoOpening(b, m, scrub(b));
  }

  // ----- Quoted strings

  lemma NotTriple(q: char, b: string, rest: string)
    requires b != "" && b[0] != q
    ensures !IsTriple([q] + b + [q] + rest)
  {
    assert ([q] + b + [q] + rest)[1] == b[0];
  }

  /** A double-quoted string is scrubbed in every file, a single-quoted one in Python and shell. */
  lemma QuotedString(q: char, b: string, rest: string, st: Style, scrub: string -> string)
    requires q == '"' || (q == '\'' && st.Hash?)
    requires QuotedBody(b, q) && (b == "" && st.Hash? ==> rest == "" || rest[0] != q)
    ensures GoesOn([q] + b + [q] + rest, Plain, st, scrub, [q] + scrub(b) + [q], rest)
  {
    hide GoesOn, QuotedBody;
    if b == "" {
      assert [q] + b + [q] + rest == [q, q] + rest;
    } else {
      FirstOfBody(b, q);
      NotTriple(q, b, rest);
    }
    TokenGoesOn(Scrubbed([q], b, [q]), rest, st, scrub);
  }

  lemma FirstOfBody(b: string, q: char)
    requires b != "" && QuotedBody(b, q) && q in ['"', '\'']
    ensures b[0] != q
  {
  }

  /** A quote that is escaped does not end the string. */
  lemma EscapedQuote(q: char, b: string, c: string, rest: string, st: Style, scrub: string -> string)
    requires (q == '"' || (q == '\'' && st.Hash?)) && Ordinary(b, q) && Ordinary(c, q)
    ensures var body := b + ['\\', q] + c;
            GoesOn([q] + body + [q] + rest, Plain, st, scrub, [q] + scrub(body) + [q], rest)
  {
    hide GoesOn, QuotedBody;
    EscapedBody(b, q, c, q);
    QuotedString(q, b + ['\\', q] + c, rest, st, scrub);
  }

  /** A character literal of Go or C is copied. */
  lemma CharLiteral(b: string, rest: string, scrub: string -> string)
    requires Ordinary(b, '\'')
    ensures GoesOn("'" + b + "'" + rest, Plain, Slashes, scrub, "'" + b + "'", rest)
  {
    hide GoesOn, QuotedBody;
    EmptyBody('\'');
    OrdinaryThen(b, "", '\'');
    assert b + "" == b;
    var t := "'" + b + "'";
    assert t[1..|t| - 1] == b && t[0] == '\'';
    assert TokenOk(Copied(t), rest, Slashes);
    TokenGoesOn(Copied(t), rest, Slashes, scrub);
  }

  /** A raw string of Go is copied up to its backquote, or stays open; a continued one likewise. */
  lemma RawString(b: string, rest: string, scrub: string -> string)
    requires '`' !in b
    ensures GoesOn("`" + b + "`" + rest, Plain, Slashes, scrub, "`" + b + "`", rest)
    ensures Becomes("`" + b, Plain, Slashes, scrub, "`" + b, InRaw)
    ensures GoesOn(b + "`" + rest, InRaw, Slashes, scrub, b + "`", rest)
    ensures Becomes(b, InRaw, Slashes, scrub, b, InRaw)
  {
    hide GoesOn, Becomes, QuotedBody, CloseAt, IsTriple;
    var t, u := "`" + b + "`", "`" + b;
    assert t[1..|t| - 1] == b && t[0] == '`';
    assert u[1..] == b && u[0] == '`';
    assert (b + "`")[..|b|] == b;
    assert TokenOk(Copied(t), rest, Slashes) && TokenOk(CopiedTail(u, InRaw), "", Slashes);
    TokenGoesOn(Copied(t), rest, Slashes, scrub);
    TokenEnds(CopiedTail(u, InRaw), Slashes, scrub);
    LeadGoesOn(Copied(b + "`"), rest, InRaw, Slashes, scrub);
    LeadEnds(CopiedTail(b, InRaw), InRaw, Slashes, scrub);
  }

  /** A quote that is not closed on its line is copied to the end, and nothing stays open. */
  lemma UnclosedQuote(q: char, b: string, st: Style, scrub: string -> string)
    requires q in ['"', '\''] && Ordinary(b, q)
    ensures Becomes([q] + b, Plain, st, scrub, [q] + b, Plain)
  {
    hide Becomes;
    OrdinaryOpen(b, q);
    var t := [q] + b;
    assert t[1..] == b;
    assert b != "" ==> b[0] in b;
    TokenEnds(CopiedTail(t, Plain), st, scrub);
  }

  lemma {:induction false} OrdinaryOpen(b: string, q: char)
    requires Ordinary(b, q)
    ensures CloseAt(b, q).None?
  {
    if b != "" {
      assert b[0] in b && forall c :: c in b[1..] ==> c in b;
      OrdinaryOpen(b[1..], q);
    }
  }
}
