/**
 Lines that a rewriting breaks, although code and delimiters are copied: a comment that
 closes early, a closing quote that becomes part of its string, and two strings that
 run together.
 */
module ScrubBreaks {
  import opened Scanning
  import opened Text
  import opened ScrubLexer
  import opened ScrubGrammar
  import opened ScrubSafety

  // ----- Bodies that leave their delimiters

  const TAG: string := "US-1"

  /** A scrub that removes one identifier, once. */
  function RemoveTag(b: string): string {
    var i := Find(b, TAG, 0);
    if i < 0 then b else b[..i] + b[i + |TAG|..]
  }

  lemma AtFirst(s: string, pat: string, k: nat, i: nat)
    requires i < |pat|
    ensures At(s, pat, k) ==> s[k + i] == pat[i]
  {
    assert At(s, pat, k) ==> s[k..k + |pat|][i] == pat[i];
  }

  lemma TagRemoved(a: string, c: string)
    requires 'U' !in a
    ensures RemoveTag(a + TAG + c) == a + c
  {
    var b := a + TAG + c;
    hide Find;
    assert At(b, TAG, |a|);
    forall k: nat | k < |a| ensures !At(b, TAG, k) {
      assert b[k] == a[k] && a[k] in a;
      AtFirst(b, TAG, k, 0);
    }
    assert Find(b, TAG, 0) == |a|;
    assert b[..|a|] == a && b[|a| + |TAG|..] == c;
  }

  lemma NoMark(b: string)
    requires forall k :: 0 <= k < |b| && b[k] == '*' ==> k + 1 < |b| && b[k + 1] != '/'
    ensures FirstClose(b, "*/")
  {
    var s := b + "*/";
    forall k: nat | k < |b| ensures !At(s, "*/", k) {
      AtFirst(s, "*/", k, 0);
      AtFirst(s, "*/", k, 1);
    }
  }

  const Comment: string := "/*a*US-1/b*/"
  const EarlyClose: string := "/*a*/b*/"

  lemma CommentLexed()
    ensures LexLine(Comment, Plain, Slashes) == Lexed([Scrubbed("/*", "a*US-1/b", "*/")], Plain)
  {
    hide Lex, FirstClose;
    var t := Scrubbed("/*", "a*US-1/b", "*/");
    NoMark("a*US-1/b");
    assert [t][1..] == [];
    assert Flat([t]) == "/*" + "a*US-1/b" + "*/" + "";
    assert Flat([t]) == Comment;
    assert TokenOk(t, "", Slashes) && CodeTokens([], Slashes, Plain);
    assert CodeTokens([t], Slashes, Plain);
    Unambiguous([t], Plain, Slashes, Plain);
  }

  lemma EarlyCloseLexed()
    ensures LexLine(EarlyClose, Plain, Slashes) ==
            Lexed([Scrubbed("/*", "a", "*/"), Code('b'), Code('*'), Code('/')], Plain)
  {
    hide Lex, FirstClose;
    var t, u, v, w := Scrubbed("/*", "a", "*/"), Code('b'), Code('*'), Code('/');
    NoMark("a");
    assert [w][1..] == [] && [v, w][1..] == [w] && [u, v, w][1..] == [v, w] && [t, u, v, w][1..] == [u, v, w];
    assert Flat([w]) == "/" && Flat([v, w]) == "*/" && Flat([u, v, w]) == "b*/";
    assert Flat([t, u, v, w]) == "/*" + "a" + "*/" + "b*/";
    assert Flat([t, u, v, w]) == EarlyClose;
    assert TokenOk(w, "", Slashes) && TokenOk(v, "/", Slashes) && TokenOk(u, "*/", Slashes);
    assert CodeTokens([w], Slashes, Plain) && CodeTokens([v, w], Slashes, Plain) && CodeTokens([u, v, w], Slashes, Plain);
    assert TokenOk(t, "b*/", Slashes);
    Unambiguous([t, u, v, w], Plain, Slashes, Plain);
  }

  /** In Go and C, removing an identifier can close a comment early: the rest of it becomes code. */
  lemma CommentClosedEarly()
    ensures LexLine(Comment, Plain, Slashes).tokens == [Scrubbed("/*", "a*US-1/b", "*/")]
    ensures Rewritten(Comment, Plain, Slashes, RemoveTag) == EarlyClose
    ensures LexLine(EarlyClose, Plain, Slashes).tokens == [Scrubbed("/*", "a", "*/"), Code('b'), Code('*'), Code('/')]
  {
    hide LexLine, RemoveTag;
    CommentLexed();
    EarlyCloseLexed();
    TagRemoved("a*", "/b");
    assert "a*" + TAG + "/b" == "a*US-1/b" && "a*" + "/b" == "a*/b";
    assert RemoveTag("a*US-1/b") == "a*/b";
    var t := Scrubbed("/*", "a*/b", "*/");
    assert Mapped([Scrubbed("/*", "a*US-1/b", "*/")], RemoveTag) == [t];
    assert [t][1..] == [];
    assert Flat([t]) == "/*" + "a*/b" + "*/" + "";
  }

  const Path: string := "\"\\US-1\"x"
  const Dangling: string := "\"\\\"x"

  lemma PathLexed()
    ensures LexLine(Path, Plain, Slashes) == Lexed([Scrubbed("\"", "\\US-1", "\""), Code('x')], Plain)
  {
    hide Lex, FirstClose;
    var t, u := Scrubbed("\"", "\\US-1", "\""), Code('x');
    assert [u][1..] == [] && [t, u][1..] == [u];
    assert Flat([u]) == "x" && Flat([t, u]) == "\"" + "\\US-1" + "\"" + "x";
    assert Flat([t, u]) == Path;
    PathBody();
    assert TokenOk(u, "", Slashes) && TokenOk(t, "x", Slashes);
    assert CodeTokens([u], Slashes, Plain);
    Unambiguous([t, u], Plain, Slashes, Plain);
  }

  lemma PathBody()
    ensures QuotedBody("\\US-1", '"')
  {
    var b := "\\US-1";
    assert b[2..] == "S-1" && "S-1"[1..] == "-1" && "-1"[1..] == "1" && "1"[1..] == "";
    assert QuotedBody("1", '"') && QuotedBody("-1", '"') && QuotedBody("S-1", '"');
  }

  lemma DanglingLexed()
    ensures LexLine(Dangling, Plain, Slashes) == Lexed([CopiedTail(Dangling, Plain)], Plain)
  {
    hide Lex;
    var t := CopiedTail(Dangling, Plain);
    assert [t][1..] == [];
    assert Flat([t]) == Dangling + "";
    assert Flat([t]) == Dangling;
    assert Dangling[1..] == "\\\"x" && Dangling[1..][2..] == "x" && "x"[1..] == "";
    assert CloseAt("x", '"').None?;
    assert TokenOk(t, "", Slashes);
    Unambiguous([t], Plain, Slashes, Plain);
  }

  /** Removing an identifier after a backslash leaves an escape that swallows the closing quote and the code after it. */
  lemma QuoteEscaped()
    ensures LexLine(Path, Plain, Slashes).tokens == [Scrubbed("\"", "\\US-1", "\""), Code('x')]
    ensures Rewritten(Path, Plain, Slashes, RemoveTag) == Dangling
    ensures LexLine(Dangling, Plain, Slashes).tokens == [CopiedTail(Dangling, Plain)]
  {
    hide LexLine, RemoveTag;
    PathLexed();
    DanglingLexed();
    TagRemoved("\\", "");
    assert "\\" + TAG + "" == "\\US-1" && "\\" + "" == "\\";
    var t, u := Scrubbed("\"", "\\", "\""), Code('x');
    assert Mapped([Scrubbed("\"", "\\US-1", "\""), u], RemoveTag) == [t, u];
    assert [u][1..] == [] && [t, u][1..] == [u];
    assert Flat([u]) == "x" && Flat([t, u]) == "\"" + "\\" + "\"" + "x";
  }

  // ----- Strings that run together

  /** A scrub that removes one identifier and leaves every other body alone. */
  function DropTag(b: string): string {
    if b == "US-1" then "" else b
  }

  /** It stays inside its delimiters. */
  lemma DropTagContained()
    ensures Contained(DropTag)
  {
  }

  const TwoAdjacent: string := "\"US-1\"\"x\""
  const RunTogether: string := "\"\"\"x\""

  lemma TwoStrings()
    ensures LexLine(TwoAdjacent, Plain, Hash) == Lexed([Scrubbed("\"", "US-1", "\""), Scrubbed("\"", "x", "\"")], Plain)
  {
    hide Lex, FirstClose, IsTriple;
    var t, u := Scrubbed("\"", "US-1", "\""), Scrubbed("\"", "x", "\"");
    TripleExactly('"', "US-1", "\"x\"");
    TripleExactly('"', "x", "");
    assert [u][1..] == [] && [t, u][1..] == [u];
    assert Flat([u]) == "\"x\"" by { assert Flat([u]) == "\"" + "x" + "\"" + ""; }
    assert Flat([t, u]) == "\"" + "US-1" + "\"" + "\"x\"";
    assert TokenOk(u, "", Hash) && TokenOk(t, "\"x\"", Hash);
    assert CodeTokens([u], Hash, Plain);
    assert Flat([t, u]) == TwoAdjacent;
    Unambiguous([t, u], Plain, Hash, Plain);
  }

  lemma TripleString()
    ensures LexLine(RunTogether, Plain, Hash).carry == InTriple('"')
  {
    hide Lex, FirstClose;
    var t := ScrubbedTail("\"\"\"", "x\"", InTriple('"'));
    assert Flat([t]) == "\"\"\"" + "x\"" + "";
    assert [t][1..] == [];
    assert TokenOk(t, "", Hash);
    assert Flat([t]) == RunTogether;
    Unambiguous([t], Plain, Hash, InTriple('"'));
  }

  lemma EmptiedText()
    ensures Flat(Mapped([Scrubbed("\"", "US-1", "\""), Scrubbed("\"", "x", "\"")], DropTag)) == RunTogether
  {
    var t, u := Scrubbed("\"", "", "\""), Scrubbed("\"", "x", "\"");
    assert Mapped([Scrubbed("\"", "US-1", "\""), u], DropTag) == [t, u];
    assert [t, u][1..] == [u];
    assert Flat([u]) == "\"" + "x" + "\"" + "";
    assert Flat([t, u]) == "\"" + "" + "\"" + "\"x\"";
  }

  /**
   In a `#` file, emptying the first of two adjacent strings makes the rest of the
   file read as a triple-quoted string, although the scrub stays inside its delimiters.
   */
  lemma StringsRunTogether()
    ensures Contained(DropTag)
    ensures LexLine(TwoAdjacent, Plain, Hash).carry == Plain
    ensures LexLine(Rewritten(TwoAdjacent, Plain, Hash, DropTag), Plain, Hash).carry == InTriple('"')
  {
    hide LexLine, Contained;
    DropTagContained();
    TwoStrings();
    EmptiedText();
    TripleString();
  }
}
