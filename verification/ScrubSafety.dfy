/**
 Which rewritings of comment and string bodies leave the structure of a line alone.
 */
module ScrubSafety {
  import opened Scanning
  import opened ScrubLexer
  import opened ScrubGrammar

  /**
   The rewritten body stays inside its delimiters: no quote closes a string early and no
   escape swallows its closing quote; no closing mark ends a comment or triple-quoted
   string early, or one that stays open.
   */
  ghost predicate StaysInside(t: Token, scrub: string -> string) {
    match t
    case Scrubbed(open, b, close) =>
      if |open| == 1 then QuotedBody(scrub(b), open[0]) else FirstClose(scrub(b), close)
    case ScrubbedTail(_, b, next) => next.Plain? || NoClose(scrub(b), CloseMark(next))
    case _ => true
  }

  ghost predicate AllInside(ts: seq<Token>, scrub: string -> string) {
    forall t :: t in ts ==> StaysInside(t, scrub)
  }

  /** A quoted string that becomes empty runs together with a quote right after it. */
  predicate Merges(t: Token, rest: string, scrub: string -> string) {
    t.Scrubbed? && |t.open| == 1 && scrub(t.body) == "" && t.open <= rest
  }

  predicate NoMerge(ts: seq<Token>, scrub: string -> string) {
    ts == [] || (!Merges(ts[0], Flat(ts[1..]), scrub) && NoMerge(ts[1..], scrub))
  }

  /** The first character, if any. */
  function Head(s: string): string {
    if s == "" then "" else s[..1]
  }

  lemma OpensHead(c: char, r: string, r': string, st: Style)
    requires Head(r) == Head(r')
    ensures Opens([c] + r, st) == Opens([c] + r', st)
  {
    var s, s' := [c] + r, [c] + r';
    if r != "" {
      assert s[1] == s'[1] by { assert r[..1][0] == r'[..1][0]; }
    }
    assert s[0] == s'[0];
  }

  lemma HeadOfConcat(a: string, r: string)
    requires a != ""
    ensures Head(a + r) == Head(a)
  {
    assert (a + r)[..1] == a[..1];
  }

  /** A rewritten token starts as the original does. */
  lemma TokenHead(t: Token, rest: string, st: Style, scrub: string -> string)
    requires TokenOk(t, rest, st)
    ensures TextOf(t) != "" && TextOf(MapToken(t, scrub)) != ""
    ensures Head(TextOf(MapToken(t, scrub))) == Head(TextOf(t))
  {
    match t
    case Scrubbed(open, b, close) =>
      assert open + b + close == open + (b + close);
      assert open + scrub(b) + close == open + (scrub(b) + close);
      HeadOfConcat(open, b + close);
      HeadOfConcat(open, scrub(b) + close);
    case ScrubbedTail(open, b, _) =>
      HeadOfConcat(open, b);
      HeadOfConcat(open, scrub(b));
    case _ =>
  }

  lemma CodeHead(ts: seq<Token>, st: Style, next: Carry, scrub: string -> string)
    requires CodeTokens(ts, st, next)
    ensures Head(Flat(Mapped(ts, scrub))) == Head(Flat(ts))
  {
    hide TokenOk, TextOf, MapToken;
    if ts != [] {
      TokenHead(ts[0], Flat(ts[1..]), st, scrub);
      HeadOfConcat(TextOf(ts[0]), Flat(ts[1..]));
      HeadOfConcat(TextOf(MapToken(ts[0], scrub)), Flat(Mapped(ts, scrub)[1..]));
    }
  }

  /** Between quotes: a body without closing quote cannot make a triple quote unless it is empty. */
  lemma TripleExactly(q: char, b: string, rest: string)
    requires IsQuote(q) && QuotedBody(b, q)
    ensures IsTriple([q] + b + [q] + rest) <==> b == "" && [q] <= rest
  {
    var s := [q] + b + [q] + rest;
    if b == "" {
      assert s == [q, q] + rest;
    } else {
      assert s[1] == b[0] && b[0] != q;
    }
  }

  lemma ScrubbedMapped(open: string, b: string, close: string, rest: string, rest': string, st: Style, scrub: string -> string)
    requires ScrubbedOk(open, b, close, rest, st) && Head(rest) == Head(rest')
    ensures var t := Scrubbed(open, b, close);
            ScrubbedOk(open, scrub(b), close, rest', st) <==>
            StaysInside(t, scrub) && (st.Slashes? || !Merges(t, rest, scrub))
  {
    hide FirstClose, IsTriple;
    if |open| == 1 {
      var q := open[0];
      assert open == [q] && close == [q];
      if QuotedBody(scrub(b), q) { TripleExactly(q, scrub(b), rest'); }
      assert [q] <= rest <==> Head(rest) == [q];
      assert [q] <= rest' <==> Head(rest') == [q];
    }
  }

  lemma TokenMapped(t: Token, rest: string, rest': string, st: Style, scrub: string -> string)
    requires TokenOk(t, rest, st) && Head(rest) == Head(rest')
    ensures TokenOk(MapToken(t, scrub), rest', st) <==>
            StaysInside(t, scrub) && (st.Slashes? || !Merges(t, rest, scrub))
  {
    hide FirstClose, NoClose;
    match t
    case Code(c) => OpensHead(c, rest, rest', st);
    case Scrubbed(open, b, close) => ScrubbedMapped(open, b, close, rest, rest', st, scrub);
    case ScrubbedTail(open, b, next) =>
      if st.Hash? && next.InTriple? { assert CloseMark(next) == open; }
    case _ =>
  }

  /** In code position, a rewriting keeps the structure exactly when it stays inside and no strings run together. */
  lemma {:induction false} CodeMapped(ts: seq<Token>, st: Style, next: Carry, scrub: string -> string)
    requires CodeTokens(ts, st, next)
    ensures CodeTokens(Mapped(ts, scrub), st, next) <==> AllInside(ts, scrub) && (st.Slashes? || NoMerge(ts, scrub))
  {
    hide TokenOk, StaysInside, Flat, Merges;
    if ts != [] {
      var us := Mapped(ts, scrub);
      assert us[1..] == Mapped(ts[1..], scrub);
      TailAlone(ts, st, next, scrub);
      TokenMapped(ts[0], Flat(ts[1..]), Flat(us[1..]), st, scrub);
      InsideCons(ts, scrub);
      if IsTail(ts[0]) {
        assert ts[1..] == [];
      } else {
        CodeMapped(ts[1..], st, next, scrub);
      }
    }
  }

  lemma InsideCons(ts: seq<Token>, scrub: string -> string)
    requires ts != []
    ensures AllInside(ts, scrub) <==> StaysInside(ts[0], scrub) && AllInside(ts[1..], scrub)
  {
    hide StaysInside;
    assert ts == [ts[0]] + ts[1..];
  }

  lemma TailAlone(ts: seq<Token>, st: Style, next: Carry, scrub: string -> string)
    requires ts != [] && CodeTokens(ts, st, next)
    ensures Head(Flat(ts[1..])) == Head(Flat(Mapped(ts[1..], scrub)))
    ensures IsTail(MapToken(ts[0], scrub)) <==> IsTail(ts[0])
    ensures IsTail(ts[0]) ==> |ts| == 1 && MapToken(ts[0], scrub).next == ts[0].next
  {
    hide TokenOk;
    if !IsTail(ts[0]) {
      CodeHead(ts[1..], st, next, scrub);
    }
  }

  /** The part of a line that lies in code position. */
  function CodePart(ts: seq<Token>, carry: Carry): seq<Token> {
    if carry.Plain? || ts == [] then ts else ts[1..]
  }

  lemma LeadMapped(t: Token, carry: Carry, scrub: string -> string)
    requires LeadOk(t, carry)
    ensures LeadOk(MapToken(t, scrub), carry) <==> StaysInside(t, scrub)
  {
    hide FirstClose, NoClose;
  }

  /**
   With any scrub, the rewriting of a derivation is a derivation exactly when every body
   stays inside its delimiters and, in `#` files, no emptied string runs together with
   the quote that follows it.
   */
  lemma DerivesMapped(ts: seq<Token>, carry: Carry, st: Style, next: Carry, scrub: string -> string)
    requires Derives(ts, carry, st, next)
    ensures Derives(Mapped(ts, scrub), carry, st, next) <==>
            AllInside(ts, scrub) && (st.Slashes? || NoMerge(CodePart(ts, carry), scrub))
  {
    hide LeadOk, StaysInside, CodeTokens, NoMerge;
    if carry.Plain? {
      CodeMapped(ts, st, next, scrub);
    } else {
      LeadMapped(ts[0], carry, scrub);
      InsideCons(ts, scrub);
      assert Mapped(ts, scrub)[1..] == Mapped(ts[1..], scrub);
      if IsTail(ts[0]) {
        assert ts[1..] == [];
        NoMergeNil(scrub);
      } else {
        CodeMapped(ts[1..], st, next, scrub);
      }
    }
  }

  lemma NoMergeNil(scrub: string -> string)
    ensures NoMerge([], scrub)
  {
  }

  /** The exact condition, for any scrub, under which re-lexing a rewritten line finds the same structure. */
  lemma RelexStable(line: string, carry: Carry, st: Style, scrub: string -> string)
    ensures var r := LexLine(line, carry, st);
            LexLine(Rewritten(line, carry, st, scrub), carry, st) == Lexed(Mapped(r.tokens, scrub), r.carry) <==>
            AllInside(r.tokens, scrub) && (st.Slashes? || NoMerge(CodePart(r.tokens, carry), scrub))
  {
    hide LexLine, Derives, NoMerge, AllInside;
    var r := LexLine(line, carry, st);
    Complete(line, carry, st);
    RelexExactly(line, carry, st, scrub);
    DerivesMapped(r.tokens, carry, st, r.carry, scrub);
  }

  // ----- Scrubs that are harmless on every line

  /** The scrub creates no closing mark, also not together with the mark that follows, and no dangling escape. */
  ghost predicate Contained(scrub: string -> string) {
    && (forall b: string, close: string :: IsBodyClose(close) && FirstClose(b, close) ==> FirstClose(scrub(b), close))
    && (forall b: string, close: string :: IsBodyClose(close) && NoClose(b, close) ==> NoClose(scrub(b), close))
    && (forall b: string, q: char :: IsQuote(q) && QuotedBody(b, q) ==> QuotedBody(scrub(b), q))
  }

  predicate IsBodyClose(close: string) {
    close == "*/" || IsTripleMark(close)
  }

  /** The states the lexer carries from line to line. */
  predicate CarryOk(c: Carry) {
    c.InTriple? ==> IsQuote(c.q)
  }

  lemma TokenContained(t: Token, rest: string, st: Style, scrub: string -> string)
    requires TokenOk(t, rest, st) && Contained(scrub)
    ensures StaysInside(t, scrub)
  {
    hide FirstClose, NoClose;
    match t
    case Scrubbed(open, b, close) =>
      if |open| != 1 { assert IsBodyClose(close) && FirstClose(b, close); }
    case ScrubbedTail(open, b, next) =>
      if !next.Plain? {
        assert st.Hash? ==> CloseMark(next) == open;
        assert IsBodyClose(CloseMark(next)) && NoClose(b, CloseMark(next));
      }
    case _ =>
  }

  lemma {:induction false} CodeContained(ts: seq<Token>, st: Style, next: Carry, scrub: string -> string)
    requires CodeTokens(ts, st, next) && Contained(scrub)
    ensures AllInside(ts, scrub)
  {
    hide TokenOk, Contained, StaysInside, Flat;
    if ts != [] {
      TokenContained(ts[0], Flat(ts[1..]), st, scrub);
      InsideCons(ts, scrub);
      if IsTail(ts[0]) {
        assert ts[1..] == [];
      } else {
        CodeContained(ts[1..], st, next, scrub);
      }
    }
  }

  lemma LeadContained(t: Token, carry: Carry, scrub: string -> string)
    requires LeadOk(t, carry) && CarryOk(carry) && Contained(scrub)
    ensures StaysInside(t, scrub)
  {
    hide FirstClose, NoClose;
    assert carry.InBlock? || carry.InTriple? ==> IsBodyClose(CloseMark(carry));
  }

  /** A contained scrub stays inside on every line. */
  lemma ContainedInside(line: string, carry: Carry, st: Style, scrub: string -> string)
    requires CarryOk(carry) && Contained(scrub)
    ensures AllInside(LexLine(line, carry, st).tokens, scrub)
  {
    hide LexLine, Contained, StaysInside, LeadOk, CodeTokens;
    var r := LexLine(line, carry, st);
    Complete(line, carry, st);
    if carry.Plain? {
      CodeContained(r.tokens, st, r.carry, scrub);
    } else {
      LeadContained(r.tokens[0], carry, scrub);
      InsideCons(r.tokens, scrub);
      if IsTail(r.tokens[0]) {
        assert r.tokens[1..] == [];
      } else {
        CodeContained(r.tokens[1..], st, r.carry, scrub);
      }
    }
  }

  /** For a contained scrub only strings that run together can break a line. */
  lemma RelexContained(line: string, carry: Carry, st: Style, scrub: string -> string)
    requires CarryOk(carry) && Contained(scrub)
    ensures var r := LexLine(line, carry, st);
            LexLine(Rewritten(line, carry, st, scrub), carry, st) == Lexed(Mapped(r.tokens, scrub), r.carry) <==>
            st.Slashes? || NoMerge(CodePart(r.tokens, carry), scrub)
  {
    hide LexLine, Contained, NoMerge, AllInside;
    RelexStable(line, carry, st, scrub);
    ContainedInside(line, carry, st, scrub);
  }

  /** Non-empty bodies stay non-empty. */
  ghost predicate KeepsNonEmpty(scrub: string -> string) {
    forall b: string :: scrub(b) == "" ==> b == ""
  }

  lemma {:induction false} NothingMerges(ts: seq<Token>, next: Carry, scrub: string -> string)
    requires CodeTokens(ts, Hash, next) && KeepsNonEmpty(scrub)
    ensures NoMerge(ts, scrub)
  {
    hide Flat;
    if ts != [] {
      SingleNotMerging(ts[0], Flat(ts[1..]), scrub);
      if !IsTail(ts[0]) {
        NothingMerges(ts[1..], next, scrub);
      }
    }
  }

  lemma SingleNotMerging(t: Token, rest: string, scrub: string -> string)
    requires TokenOk(t, rest, Hash) && KeepsNonEmpty(scrub)
    ensures !Merges(t, rest, scrub)
  {
    hide FirstClose, NoClose, IsTriple;
    if Merges(t, rest, scrub) {
      var q := t.open[0];
      assert t.open == [q] && t.close == [q];
      TripleExactly(q, t.body, rest);
    }
  }

  /** A scrub that stays inside its delimiters and, for `#` files, empties no body. */
  ghost predicate Safe(scrub: string -> string, st: Style) {
    Contained(scrub) && (st.Hash? ==> KeepsNonEmpty(scrub))
  }

  /** After a safe rewriting, the line has the same tokens, code text and carried state. */
  lemma SafeRelex(line: string, carry: Carry, st: Style, scrub: string -> string)
    requires CarryOk(carry) && Safe(scrub, st)
    ensures var r := LexLine(line, carry, st);
            LexLine(Rewritten(line, carry, st, scrub), carry, st) == Lexed(Mapped(r.tokens, scrub), r.carry)
  {
    hide LexLine, Contained, NoMerge, AllInside;
    var r := LexLine(line, carry, st);
    Complete(line, carry, st);
    RelexContained(line, carry, st, scrub);
    if st.Hash? {
      if carry.Plain? {
        NothingMerges(r.tokens, r.carry, scrub);
      } else if IsTail(r.tokens[0]) {
        assert r.tokens[1..] == [];
        NoMergeNil(scrub);
      } else {
        NothingMerges(r.tokens[1..], r.carry, scrub);
      }
    }
  }

  lemma {:induction false} MappedTwice(ts: seq<Token>, scrub: string -> string)
    requires forall b: string :: scrub(scrub(b)) == scrub(b)
    ensures Mapped(Mapped(ts, scrub), scrub) == Mapped(ts, scrub)
  {
    if ts != [] { MappedTwice(ts[1..], scrub); }
  }

  /** Rewriting a line twice is rewriting it once. */
  lemma RewriteIdempotent(line: string, carry: Carry, st: Style, scrub: string -> string)
    requires CarryOk(carry) && Safe(scrub, st)
    requires forall b: string :: scrub(scrub(b)) == scrub(b)
    ensures var once := Rewritten(line, carry, st, scrub);
            && Rewritten(once, carry, st, scrub) == once
            && LexLine(once, carry, st).carry == LexLine(line, carry, st).carry
  {
    hide LexLine, Safe;
    SafeRelex(line, carry, st, scrub);
    MappedTwice(LexLine(line, carry, st).tokens, scrub);
  }

  /** The lexer only carries states it can continue from. */
  lemma {:induction false} CarryKept(line: string, carry: Carry, st: Style)
    requires CarryOk(carry)
    ensures CarryOk(LexLine(line, carry, st).carry)
  {
    hide Lex;
    Complete(line, carry, st);
    var r := LexLine(line, carry, st);
    if carry.Plain? {
      CodeCarry(r.tokens, st, r.carry);
    } else if !IsTail(r.tokens[0]) {
      CodeCarry(r.tokens[1..], st, r.carry);
    }
  }

  lemma {:induction false} CodeCarry(ts: seq<Token>, st: Style, next: Carry)
    requires CodeTokens(ts, st, next)
    ensures CarryOk(next)
  {
    if ts != [] && !IsTail(ts[0]) { CodeCarry(ts[1..], st, next); }
  }
}
