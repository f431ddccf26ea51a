/**
 Re-lexing whole files: when the file that `process` of scripts/scrub-internal-ids.py
 writes has, line by line, the structure of the file it read.
 */
module ScrubStructure {
  import opened Scanning
  import opened Text
  import opened ScrubLexer
  import opened ScrubGrammar
  import opened ScrubSafety
  import opened ScrubBreaks
  import opened ScrubFile

  /** What the lexer finds on each line of a text. */
  function LexFile(text: string, carry: Carry, st: Style): (r: seq<Lexed>)
    ensures text != "" ==> r != []
    decreases |text|
  {
    if text == "" then []
    else
      var first := LexLine(text[..Eol(text)], carry, st);
      [first] + LexFile(RestOf(text), first.carry, st)
  }

  /** The same lines with every body rewritten: tokens, code and carried states in place. */
  function MapLines(lines: seq<Lexed>, scrub: string -> string): (r: seq<Lexed>)
    ensures |r| == |lines|
    ensures forall i :: 0 <= i < |lines| ==> r[i] == Lexed(Mapped(lines[i].tokens, scrub), lines[i].carry)
  {
    seq(|lines|, i requires 0 <= i < |lines| => Lexed(Mapped(lines[i].tokens, scrub), lines[i].carry))
  }

  /** No body gets a newline. */
  predicate StaysOnLine(ts: seq<Token>, scrub: string -> string) {
    forall t :: t in ts && (t.Scrubbed? || t.ScrubbedTail?) ==> '\n' !in scrub(t.body)
  }

  /** A line whose bodies stay inside and on the line, and whose strings do not run together. */
  ghost predicate LineStays(r: Lexed, carry: Carry, st: Style, scrub: string -> string) {
    && StaysOnLine(r.tokens, scrub) && AllInside(r.tokens, scrub)
    && (st.Slashes? || NoMerge(CodePart(r.tokens, carry), scrub))
  }

  ghost predicate LinesStay(lines: seq<Lexed>, carry: Carry, st: Style, scrub: string -> string) {
    lines == [] || (LineStays(lines[0], carry, st, scrub) && LinesStay(lines[1..], lines[0].carry, st, scrub))
  }

  /** The line lies inside one open comment or string, and its text is scrubbed to nothing. */
  predicate Emptied(r: Lexed, scrub: string -> string) {
    |r.tokens| == 1 && r.tokens[0].ScrubbedTail? && r.tokens[0].open == "" && scrub(r.tokens[0].body) == ""
  }

  /** The file ends without a newline, in a line that is emptied. */
  predicate LastEmptied(text: string, carry: Carry, st: Style, scrub: string -> string) {
    && text != "" && text[|text| - 1] != '\n'
    && var lines := LexFile(text, carry, st);
       Emptied(lines[|lines| - 1], scrub)
  }

  lemma FlatOne(t: Token)
    ensures Flat([t]) == TextOf(t)
  {
    assert [t][1..] == [] && TextOf(t) + "" == TextOf(t);
  }

  /** A line that is not empty is rewritten to nothing exactly when it is emptied as a whole. */
  lemma EmptiedExactly(line: string, carry: Carry, st: Style, scrub: string -> string)
    requires line != ""
    ensures Rewritten(line, carry, st, scrub) == "" <==> Emptied(LexLine(line, carry, st), scrub)
  {
    hide LexLine, Mapped, CodeTokens;
    var r := LexLine(line, carry, st);
    Complete(line, carry, st);
    MappedFirst(r.tokens, scrub);
    if carry.Plain? {
      CodeNotEmptied(r.tokens, st, r.carry, scrub);
    } else {
      LeadEmptied(r.tokens, carry, scrub);
    }
  }

  lemma MappedFirst(ts: seq<Token>, scrub: string -> string)
    requires ts != []
    ensures Flat(Mapped(ts, scrub)) == TextOf(MapToken(ts[0], scrub)) + Flat(Mapped(ts[1..], scrub))
    ensures |ts| == 1 ==> Flat(Mapped(ts[1..], scrub)) == "" && Flat(ts) == TextOf(ts[0])
  {
    assert Mapped(ts, scrub)[1..] == Mapped(ts[1..], scrub);
    if |ts| == 1 {
      assert ts == [ts[0]];
      FlatOne(ts[0]);
    }
  }

  lemma CodeNotEmptied(ts: seq<Token>, st: Style, next: Carry, scrub: string -> string)
    requires ts != [] && CodeTokens(ts, st, next)
    ensures TextOf(MapToken(ts[0], scrub)) != ""
    ensures ts[0].ScrubbedTail? ==> ts[0].open != ""
  {
    TokenHead(ts[0], Flat(ts[1..]), st, scrub);
  }

  /** Only an open body, alone on its line, can be scrubbed to nothing. */
  lemma LeadEmptied(ts: seq<Token>, carry: Carry, scrub: string -> string)
    requires ts != [] && LeadOk(ts[0], carry) && (|ts| == 1 ==> TextOf(ts[0]) != "")
    requires IsTail(ts[0]) ==> |ts| == 1
    ensures TextOf(MapToken(ts[0], scrub)) == "" <==> ts[0].ScrubbedTail? && ts[0].open == "" && scrub(ts[0].body) == ""
  {
    hide FirstClose, NoClose;
  }

  // ----- Line by line

  /** Lexing a text that starts with `line`. */
  lemma LexFirst(line: string, rest: string, newline: bool, carry: Carry, st: Style)
    requires '\n' !in line && (!newline ==> rest == "" && line != "")
    ensures var first := LexLine(line, carry, st);
            LexFile(line + Newline(newline) + rest, carry, st) == [first] + LexFile(rest, first.carry, st)
  {
    hide LexLine;
    var s := line + Newline(newline) + rest;
    EolOf(line, rest);
    if newline {
      assert s == line + "\n" + rest && s[..|line|] == line && s[|line| + 1..] == rest;
    } else {
      assert s == line && s[..|line|] == line;
    }
  }

  /** A rewritten line has no newline, and its carried state is one the lexer can continue from. */
  lemma LineWhole(line: string, carry: Carry, st: Style, scrub: string -> string)
    requires NoNewlines(scrub) && CarryOk(carry) && '\n' !in line
    ensures '\n' !in Rewritten(line, carry, st, scrub) && CarryOk(LexLine(line, carry, st).carry)
  {
    hide LexLine;
    Complete(line, carry, st);
    FlatNewline(LexLine(line, carry, st).tokens, scrub);
    CarryKept(line, carry, st);
  }

  lemma LastChar(text: string)
    requires text != ""
    ensures Eol(text) == |text| ==> text[|text| - 1] != '\n'
    ensures Eol(text) < |text| && RestOf(text) == "" ==> text[|text| - 1] == '\n'
    ensures Eol(text) < |text| && RestOf(text) != "" ==> text[|text| - 1] == RestOf(text)[|RestOf(text)| - 1]
  {
    var e := Eol(text);
    hide Eol;
    if e == |text| {
      assert text[..e] == text && text[|text| - 1] in text;
    }
  }

  lemma LexStep(text: string, carry: Carry, st: Style)
    requires text != ""
    ensures var first := LexLine(text[..Eol(text)], carry, st);
            LexFile(text, carry, st) == [first] + LexFile(RestOf(text), first.carry, st)
    ensures Eol(text) == |text| ==> LexFile(RestOf(text), LexLine(text[..Eol(text)], carry, st).carry, st) == []
  {
    hide LexLine;
  }

  /** Where the last line of a text is found. */
  lemma LastEmptiedStep(text: string, carry: Carry, st: Style, scrub: string -> string)
    requires text != ""
    ensures var first := LexLine(text[..Eol(text)], carry, st);
            LastEmptied(text, carry, st, scrub) <==>
            if Eol(text) == |text| then Emptied(first, scrub) else LastEmptied(RestOf(text), first.carry, st, scrub)
  {
    hide LexLine, Emptied, LexFile, Eol, RestOf;
    LastChar(text);
    LexStep(text, carry, st);
    var more := LexFile(RestOf(text), LexLine(text[..Eol(text)], carry, st).carry, st);
    if more != [] {
      assert LexFile(text, carry, st)[|more|] == more[|more| - 1];
    }
  }

  lemma MapLinesCons(first: Lexed, rest: seq<Lexed>, scrub: string -> string)
    ensures MapLines([first] + rest, scrub) == [Lexed(Mapped(first.tokens, scrub), first.carry)] + MapLines(rest, scrub)
  {
  }

  /** The content of a rewritten file, from its first line. */
  lemma ContentFirst(text: string, number: nat, carry: Carry, st: Style, scrub: string -> string)
    requires text != ""
    ensures var line := text[..Eol(text)];
            FileOutput(text, number, carry, Source(st), scrub).content ==
            Rewritten(line, carry, st, scrub) + Newline(Eol(text) < |text|)
            + FileOutput(RestOf(text), number + 1, LexLine(line, carry, st).carry, Source(st), scrub).content
    ensures Eol(text) == |text| ==> RestOf(text) == "" && text[..Eol(text)] != ""
  {
    hide LexLine, Rewritten;
  }

  // ----- Whole files

  /** A rewritten line stays one line exactly when no body gets a newline. */
  lemma {:induction false} OneLine(ts: seq<Token>, scrub: string -> string)
    requires '\n' !in Flat(ts)
    ensures '\n' !in Flat(Mapped(ts, scrub)) <==> StaysOnLine(ts, scrub)
  {
    if ts != [] {
      assert forall c :: c in Flat(ts) <==> c in TextOf(ts[0]) || c in Flat(ts[1..]);
      assert ts == [ts[0]] + ts[1..];
      OneLine(ts[1..], scrub);
      OneToken(ts[0], scrub);
      MappedFirst(ts, scrub);
    }
  }

  lemma OneToken(t: Token, scrub: string -> string)
    requires '\n' !in TextOf(t)
    ensures '\n' !in TextOf(MapToken(t, scrub)) <==> (t.Scrubbed? || t.ScrubbedTail? ==> '\n' !in scrub(t.body))
  {
    if t.Scrubbed? || t.ScrubbedTail? {
      assert forall c :: c in t.open ==> c in TextOf(t);
      if t.Scrubbed? { assert forall c :: c in t.close ==> c in TextOf(t); }
    }
  }

  /** Every line of a file is found without newlines, so a body that got one is not found again. */
  lemma BrokenLine(text: string, carry: Carry, st: Style, first: Lexed)
    requires text != "" && '\n' in Flat(first.tokens)
    ensures LexFile(text, carry, st) != [] && LexFile(text, carry, st)[0] != first
  {
    hide LexLine;
    Complete(text[..Eol(text)], carry, st);
  }

  /**
   For any scrub, the written file lexes, line by line, to the rewritten tokens and the
   same carried states exactly when every body stays inside its delimiters and on its
   line, no emptied string of a `#` file runs together with a quote, and the last line
   does not vanish.
   */
  lemma {:induction false} FileRelexExactly(text: string, number: nat, carry: Carry, st: Style, scrub: string -> string)
    ensures var lines, once := LexFile(text, carry, st), FileOutput(text, number, carry, Source(st), scrub).content;
            LexFile(once, carry, st) == MapLines(lines, scrub) <==>
            LinesStay(lines, carry, st, scrub) && !LastEmptied(text, carry, st, scrub)
    decreases |text|
  {
    hide LexLine, Rewritten, LineStays, Mapped, LexFile, Eol, RestOf, LastEmptied, FileOutput, Emptied;
    EmptyText(number, carry, st, scrub);
    if text != "" {
      var line, newline := text[..Eol(text)], Eol(text) < |text|;
      var first := LexLine(line, carry, st);
      var after := Rewritten(line, carry, st, scrub);
      var rest := FileOutput(RestOf(text), number + 1, first.carry, Source(st), scrub).content;
      var more := LexFile(RestOf(text), first.carry, st);
      var mapped := Lexed(Mapped(first.tokens, scrub), first.carry);
      FileRelexExactly(RestOf(text), number + 1, first.carry, st, scrub);
      ContentFirst(text, number, carry, st, scrub);
      LexStep(text, carry, st);
      LastEmptiedStep(text, carry, st, scrub);
      MapLinesCons(first, more, scrub);
      EmptyText(number + 1, first.carry, st, scrub);
      LineRelex(line, carry, st, scrub);
      assert ([first] + more)[1..] == more;
      if '\n' in after {
        BrokenLine(after + Newline(newline) + rest, carry, st, mapped);
      } else if newline || after != "" {
        LexFirst(after, rest, newline, carry, st);
        var again := LexLine(after, carry, st);
        ConsEqual(again, LexFile(rest, again.carry, st), mapped, MapLines(more, scrub));
      } else {
        assert after + Newline(newline) + rest == "";
      }
      if !newline { EmptiedExactly(line, carry, st, scrub); }
    }
  }

  /** One line: what the rewritten text is, and when it is found again. */
  lemma LineRelex(line: string, carry: Carry, st: Style, scrub: string -> string)
    requires '\n' !in line
    ensures var r, after := LexLine(line, carry, st), Rewritten(line, carry, st, scrub);
            && after == Flat(Mapped(r.tokens, scrub))
            && (LineStays(r, carry, st, scrub) <==>
                '\n' !in after && LexLine(after, carry, st) == Lexed(Mapped(r.tokens, scrub), r.carry))
  {
    hide LexLine, AllInside, NoMerge, StaysOnLine;
    Complete(line, carry, st);
    OneLine(LexLine(line, carry, st).tokens, scrub);
    RelexStable(line, carry, st, scrub);
  }

  lemma ConsEqual<T>(a: T, x: seq<T>, b: T, y: seq<T>)
    ensures [a] + x == [b] + y <==> a == b && x == y
  {
    if [a] + x == [b] + y {
      assert ([a] + x)[0] == ([b] + y)[0] && ([a] + x)[1..] == x && ([b] + y)[1..] == y;
    }
  }

  lemma EmptyText(number: nat, carry: Carry, st: Style, scrub: string -> string)
    ensures LexFile("", carry, st) == [] && FileOutput("", number, carry, Source(st), scrub) == Output([], "")
    ensures !LastEmptied("", carry, st, scrub)
  {
  }

  /** On no line does an emptied string run together with the quote after it. */
  predicate LinesApart(lines: seq<Lexed>, carry: Carry, scrub: string -> string) {
    lines == [] || (NoMerge(CodePart(lines[0].tokens, carry), scrub) && LinesApart(lines[1..], lines[0].carry, scrub))
  }

  /** With a contained scrub, lines stay as they are exactly when no strings run together. */
  lemma {:induction false} ContainedStays(text: string, carry: Carry, st: Style, scrub: string -> string)
    requires CarryOk(carry) && Contained(scrub) && NoNewlines(scrub)
    ensures LinesStay(LexFile(text, carry, st), carry, st, scrub) <==>
            st.Slashes? || LinesApart(LexFile(text, carry, st), carry, scrub)
    decreases |text|
  {
    hide LexLine, Contained, NoNewlines, LineStays, NoMerge, LexFile, Eol, RestOf;
    EmptyText(1, carry, st, scrub);
    if text != "" {
      var line := text[..Eol(text)];
      var first := LexLine(line, carry, st);
      LineWhole(line, carry, st, scrub);
      RelexContained(line, carry, st, scrub);
      LineRelex(line, carry, st, scrub);
      ContainedStays(RestOf(text), first.carry, st, scrub);
      LexStep(text, carry, st);
      assert LexFile(text, carry, st)[1..] == LexFile(RestOf(text), first.carry, st);
    }
  }

  /** The same for whole files: only strings that run together and a lost last line can break them. */
  lemma ContainedFile(text: string, number: nat, carry: Carry, st: Style, scrub: string -> string)
    requires CarryOk(carry) && Contained(scrub) && NoNewlines(scrub)
    ensures var lines, once := LexFile(text, carry, st), FileOutput(text, number, carry, Source(st), scrub).content;
            LexFile(once, carry, st) == MapLines(lines, scrub) <==>
            (st.Slashes? || LinesApart(lines, carry, scrub)) && !LastEmptied(text, carry, st, scrub)
  {
    hide Contained, NoNewlines, LexFile, FileOutput, LastEmptied, MapLines, LinesStay, LinesApart;
    FileRelexExactly(text, number, carry, st, scrub);
    ContainedStays(text, carry, st, scrub);
  }

  /** With a safe scrub every line of a file stays as it is. */
  lemma {:induction false} SafeStays(text: string, carry: Carry, st: Style, scrub: string -> string)
    requires CarryOk(carry) && Safe(scrub, st) && NoNewlines(scrub)
    ensures LinesStay(LexFile(text, carry, st), carry, st, scrub)
    decreases |text|
  {
    hide LexLine, Safe, NoNewlines, LineStays, LexFile, Eol, RestOf;
    EmptyText(1, carry, st, scrub);
    if text != "" {
      var line := text[..Eol(text)];
      var first := LexLine(line, carry, st);
      LineWhole(line, carry, st, scrub);
      SafeRelex(line, carry, st, scrub);
      LineRelex(line, carry, st, scrub);
      SafeStays(RestOf(text), first.carry, st, scrub);
      LexStep(text, carry, st);
      assert LexFile(text, carry, st)[1..] == LexFile(RestOf(text), first.carry, st);
    }
  }

  /** A scrub that empties no body empties no line either. */
  lemma {:induction false} NeverEmptied(text: string, carry: Carry, st: Style, scrub: string -> string)
    requires KeepsNonEmpty(scrub)
    ensures !LastEmptied(text, carry, st, scrub)
    decreases |text|
  {
    hide LexLine, LastEmptied, Eol, RestOf;
    if text == "" {
      EmptyText(1, carry, st, scrub);
    } else {
      var line := text[..Eol(text)];
      var first := LexLine(line, carry, st);
      Complete(line, carry, st);
      LastEmptiedStep(text, carry, st, scrub);
      if Eol(text) == |text| {
        var ts := first.tokens;
        if |ts| == 1 && ts[0].ScrubbedTail? && ts[0].open == "" { NotEmptied(ts, scrub); }
      } else {
        NeverEmptied(RestOf(text), first.carry, st, scrub);
      }
    }
  }

  lemma NotEmptied(ts: seq<Token>, scrub: string -> string)
    requires KeepsNonEmpty(scrub) && |ts| == 1 && ts[0].ScrubbedTail? && ts[0].open == ""
    ensures Flat(ts) != "" ==> scrub(ts[0].body) != ""
  {
    assert ts == [ts[0]];
    FlatOne(ts[0]);
  }

  /** When the last line is emptied, the others are written as they should be. */
  lemma {:induction false} AllButLast(text: string, number: nat, carry: Carry, st: Style, scrub: string -> string)
    requires CarryOk(carry) && Safe(scrub, st) && NoNewlines(scrub) && LastEmptied(text, carry, st, scrub)
    ensures var lines, once := LexFile(text, carry, st), FileOutput(text, number, carry, Source(st), scrub).content;
            lines != [] && LexFile(once, carry, st) == MapLines(lines[..|lines| - 1], scrub)
    decreases |text|
  {
    hide LexLine, Rewritten, Safe, NoNewlines, Mapped, LexFile, Eol, RestOf, LastEmptied, FileOutput, Emptied;
    EmptyText(number, carry, st, scrub);
    var line, newline := text[..Eol(text)], Eol(text) < |text|;
    var first := LexLine(line, carry, st);
    var after := Rewritten(line, carry, st, scrub);
    var rest := FileOutput(RestOf(text), number + 1, first.carry, Source(st), scrub).content;
    var more := LexFile(RestOf(text), first.carry, st);
    LineWhole(line, carry, st, scrub);
    SafeRelex(line, carry, st, scrub);
    ContentFirst(text, number, carry, st, scrub);
    LexStep(text, carry, st);
    LastEmptiedStep(text, carry, st, scrub);
    if newline {
      AllButLast(RestOf(text), number + 1, first.carry, st, scrub);
      LexFirst(after, rest, newline, carry, st);
      MapLinesCons(first, more[..|more| - 1], scrub);
      assert ([first] + more)[..|more|] == [first] + more[..|more| - 1];
    } else {
      EmptyText(number + 1, first.carry, st, scrub);
      EmptiedExactly(line, carry, st, scrub);
      assert after + Newline(newline) + rest == "";
      assert LexFile(text, carry, st) == [first] && [first][..0] == [];
    }
  }

  /**
   A safe scrub leaves the structure of a whole file alone: every line keeps its tokens
   and its carried state; only an emptied last line without a newline is lost.
   */
  lemma SafeFile(text: string, number: nat, carry: Carry, st: Style, scrub: string -> string)
    requires CarryOk(carry) && Safe(scrub, st) && NoNewlines(scrub)
    ensures var lines, once := LexFile(text, carry, st), FileOutput(text, number, carry, Source(st), scrub).content;
            LexFile(once, carry, st) ==
            MapLines(if LastEmptied(text, carry, st, scrub) then lines[..|lines| - 1] else lines, scrub)
    ensures st.Hash? ==> !LastEmptied(text, carry, st, scrub)
  {
    hide Contained, NoNewlines, LexFile, FileOutput, LastEmptied, MapLines, LinesStay;
    if st.Hash? {
      NeverEmptied(text, carry, st, scrub);
    }
    SafeStays(text, carry, st, scrub);
    if LastEmptied(text, carry, st, scrub) {
      AllButLast(text, number, carry, st, scrub);
    } else {
      FileRelexExactly(text, number, carry, st, scrub);
    }
  }

  // ----- A last line that is lost

  const OpenComment: string := "/*"

  lemma NoStar(b: string)
    requires '*' !in b
    ensures NoClose(b, "*/")
  {
    forall i: nat ensures !At(b, "*/", i) {
      assert i + 2 <= |b| ==> b[i..i + 2][0] in b;
    }
  }

  lemma OpenCommentLexed()
    ensures LexLine(OpenComment, Plain, Slashes) == Lexed([ScrubbedTail("/*", "", InBlock)], InBlock)
    ensures LexLine("US-1", InBlock, Slashes) == Lexed([ScrubbedTail("", "US-1", InBlock)], InBlock)
  {
    hide Lex;
    var t, u := ScrubbedTail("/*", "", InBlock), ScrubbedTail("", "US-1", InBlock);
    FlatOne(t);
    FlatOne(u);
    assert [t][1..] == [] && [u][1..] == [];
    assert TextOf(t) == OpenComment && TextOf(u) == "US-1";
    NoStar("US-1");
    assert TokenOk(t, "", Slashes);
    Unambiguous([t], Plain, Slashes, InBlock);
    Unambiguous([u], InBlock, Slashes, InBlock);
  }

  const Unclosed: string := OpenComment + Newline(true) + "US-1"

  lemma UnclosedLexed()
    ensures Unclosed[|Unclosed| - 1] == '1'
    ensures LexFile(Unclosed, Plain, Slashes) ==
            [Lexed([ScrubbedTail("/*", "", InBlock)], InBlock), Lexed([ScrubbedTail("", "US-1", InBlock)], InBlock)]
  {
    hide LexLine, Eol, LexFile;
    OpenCommentLexed();
    LexFirst(OpenComment, "US-1", true, Plain, Slashes);
    assert "US-1" == "US-1" + Newline(false) + "";
    LexFirst("US-1", "", false, InBlock, Slashes);
    EmptyText(1, InBlock, Slashes, DropTag);
  }

  lemma UnclosedContent()
    ensures FileOutput(Unclosed, 1, Plain, Source(Slashes), DropTag).content == OpenComment + "\n"
  {
    hide LexLine, Eol, FileOutput, Flat;
    OpenCommentLexed();
    var t, u := ScrubbedTail("/*", "", InBlock), ScrubbedTail("", "", InBlock);
    FirstLine(OpenComment, "US-1", true, 1, Plain, Source(Slashes), DropTag);
    assert "US-1" == "US-1" + Newline(false) + "";
    FirstLine("US-1", "", false, 2, InBlock, Source(Slashes), DropTag);
    EmptyText(3, InBlock, Slashes, DropTag);
    FlatOne(t);
    FlatOne(u);
    assert Mapped([t], DropTag) == [t] && Mapped([ScrubbedTail("", "US-1", InBlock)], DropTag) == [u];
  }

  /** A file that ends inside a comment loses its last line when that is scrubbed away. */
  lemma LastLineLost()
    ensures Contained(DropTag) && NoNewlines(DropTag) && LastEmptied(Unclosed, Plain, Slashes, DropTag)
    ensures FileOutput(Unclosed, 1, Plain, Source(Slashes), DropTag).content == OpenComment + "\n"
  {
    hide LexFile, FileOutput, Contained;
    DropTagContained();
    UnclosedLexed();
    UnclosedContent();
  }
}
