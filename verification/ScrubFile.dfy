/**
 Whole files (function `process` of scripts/scrub-internal-ids.py): lines are
 rewritten one after the other, with the lexer state carried along, and the lines
 that changed are reported.
 */
module ScrubFile {
  import opened Text
  import opened ScrubLexer
  import opened ScrubGrammar
  import opened ScrubSafety
  import opened ScrubRewrite

  /** Source code in one of the two comment styles, or prose that is scrubbed line by line. */
  datatype Kind = Source(st: Style) | Prose

  /** A reported line: its number, and its text before and after. */
  datatype Change = Change(number: nat, before: string, after: string)

  datatype Output = Output(changed: seq<Change>, content: string)

  function LineText(line: string, carry: Carry, kind: Kind, scrub: string -> string): string {
    if kind.Prose? then scrub(line) else Rewritten(line, carry, kind.st, scrub)
  }

  function LineCarry(line: string, carry: Carry, kind: Kind): Carry {
    if kind.Prose? then carry else LexLine(line, carry, kind.st).carry
  }

  function Note(number: nat, before: string, after: string): seq<Change> {
    if before == after then [] else [Change(number, before, after)]
  }

  /** Offset of the first newline, or the length of the text. */
  function Eol(text: string): (e: nat)
    ensures e <= |text| && '\n' !in text[..e] && (e < |text| ==> text[e] == '\n')
  {
    if text == "" || text[0] == '\n' then 0
    else
      assert text[..1 + Eol(text[1..])] == [text[0]] + text[1..][..Eol(text[1..])];
      1 + Eol(text[1..])
  }

  /** The text after the first line. */
  function RestOf(text: string): (r: string)
    requires text != ""
    ensures |r| < |text|
  {
    if Eol(text) == |text| then "" else text[Eol(text) + 1..]
  }

  function Newline(present: bool): string {
    if present then "\n" else ""
  }

  /** One rewritten line in front of the output for the lines after it. */
  function Prepend(number: nat, before: string, after: string, newline: bool, rest: Output): Output {
    Output(Note(number, before, after) + rest.changed, after + Newline(newline) + rest.content)
  }

  /** The file from line `number` on. */
  function FileOutput(text: string, number: nat, carry: Carry, kind: Kind, scrub: string -> string): Output
    decreases |text|
  {
    if text == "" then Output([], "")
    else
      var line := text[..Eol(text)];
      Prepend(number, line, LineText(line, carry, kind, scrub), Eol(text) < |text|,
              FileOutput(RestOf(text), number + 1, LineCarry(line, carry, kind), kind, scrub))
  }

  // ----- The loop over the lines

  /** The lines with their newlines; only the last may lack one. */
  function ReadLines(text: string): seq<string>
    decreases |text|
  {
    if text == "" then []
    else [text[..Eol(text)] + Newline(Eol(text) < |text|)] + ReadLines(RestOf(text))
  }

  predicate IsNewline(c: char) {
    c == '\n'
  }

  predicate EndsLine(line: string) {
    line != "" && line[|line| - 1] == '\n'
  }

  /** The output for a list of lines. */
  function LinesOutput(lines: seq<string>, number: nat, carry: Carry, kind: Kind, scrub: string -> string): Output {
    if lines == [] then Output([], "")
    else
      var line := TrimRight(lines[0], IsNewline);
      Prepend(number, line, LineText(line, carry, kind, scrub), EndsLine(lines[0]),
              LinesOutput(lines[1..], number + 1, LineCarry(line, carry, kind), kind, scrub))
  }

  lemma Chomp(body: string, newline: bool)
    requires '\n' !in body
    ensures TrimRight(body + Newline(newline), IsNewline) == body
    ensures EndsLine(body + Newline(newline)) == newline
  {
    TrimRightOf(body, Newline(newline), IsNewline);
  }

  lemma {:induction false} LinesAreFile(text: string, number: nat, carry: Carry, kind: Kind, scrub: string -> string)
    ensures LinesOutput(ReadLines(text), number, carry, kind, scrub) == FileOutput(text, number, carry, kind, scrub)
    decreases |text|
  {
    hide LineText, LineCarry, TrimRight, Prepend, RestOf, EndsLine, Newline;
    if text != "" {
      var line := text[..Eol(text)];
      Chomp(line, Eol(text) < |text|);
      LinesAreFile(RestOf(text), number + 1, LineCarry(line, carry, kind), kind, scrub);
      assert ReadLines(text)[1..] == ReadLines(RestOf(text));
    }
  }

  lemma LinesStep(lines: seq<string>, idx: nat, carry: Carry, kind: Kind, scrub: string -> string)
    requires idx <= |lines|
    ensures idx == |lines| ==> LinesOutput(lines[idx..], idx + 1, carry, kind, scrub) == Output([], "")
    ensures idx < |lines| ==>
              var line := TrimRight(lines[idx], IsNewline);
              LinesOutput(lines[idx..], idx + 1, carry, kind, scrub) ==
              Prepend(idx + 1, line, LineText(line, carry, kind, scrub), EndsLine(lines[idx]),
                      LinesOutput(lines[idx + 1..], idx + 2, LineCarry(line, carry, kind), kind, scrub))
  {
    hide LineText, LineCarry, TrimRight, Prepend, EndsLine;
    if idx < |lines| { assert lines[idx..][1..] == lines[idx + 1..]; }
  }

  lemma Accumulate(done: Output, number: nat, before: string, after: string, newline: bool, rest: Output)
    ensures var all := Prepend(number, before, after, newline, rest);
            && done.changed + all.changed == (done.changed + Note(number, before, after)) + rest.changed
            && done.content + all.content == (done.content + (after + Newline(newline))) + rest.content
  {
  }

  /** Rewrites a file: its content and the report are those of the file specification. */
  method Process(text: string, kind: Kind, scrub: string -> string) returns (changed: seq<Change>, content: string)
    ensures Output(changed, content) == FileOutput(text, 1, Plain, kind, scrub)
  {
    hide Rewritten, LexLine, TrimRight, ReadLines, FileOutput, LinesOutput, Prepend, EndsLine, Newline;
    var lines, state, idx := ReadLines(text), Plain, 0;
    changed, content := [], "";
    LinesAreFile(text, 1, Plain, kind, scrub);
    ghost var goal := FileOutput(text, 1, Plain, kind, scrub);
    assert lines[0..] == lines;
    while idx < |lines|
      invariant 0 <= idx <= |lines|
      invariant goal.changed == changed + LinesOutput(lines[idx..], idx + 1, state, kind, scrub).changed
      invariant goal.content == content + LinesOutput(lines[idx..], idx + 1, state, kind, scrub).content
    {
      var nl := TrimRight(lines[idx], IsNewline);
      LinesStep(lines, idx, state, kind, scrub);
      ghost var rest := LinesOutput(lines[idx + 1..], idx + 2, LineCarry(nl, state, kind), kind, scrub);
      Accumulate(Output(changed, content), idx + 1, nl, LineText(nl, state, kind, scrub), EndsLine(lines[idx]), rest);
      var rewritten;
      if kind.Prose? {
        rewritten := scrub(nl);
      } else {
        rewritten, state := RewriteLine(nl, state, kind.st, scrub);
      }
      if rewritten != nl {
        changed := changed + [Change(idx + 1, nl, rewritten)];
      }
      content := content + (rewritten + Newline(EndsLine(lines[idx])));
      idx := idx + 1;
    }
    LinesStep(lines, idx, state, kind, scrub);
  }

  // ----- Files as lines

  /** Each line rewritten in the state the lines before it leave; nothing is done after the last newline. */
  function LinesOut(lines: seq<string>, carry: Carry, kind: Kind, scrub: string -> string): (r: seq<string>)
    requires |lines| > 0
    ensures |r| == |lines|
  {
    if |lines| == 1 then [if lines[0] == "" then "" else LineText(lines[0], carry, kind, scrub)]
    else [LineText(lines[0], carry, kind, scrub)] + LinesOut(lines[1..], LineCarry(lines[0], carry, kind), kind, scrub)
  }

  /** Line `i` is reported: it changed, and the report has its number and both texts. */
  predicate Reported(c: Change, lines: seq<string>, out: seq<string>, number: nat, i: nat) {
    i < |lines| == |out| && out[i] != lines[i] && c == Change(number + i, lines[i], out[i])
  }

  /** Some line is reported as `c`. */
  ghost predicate Listed(c: Change, lines: seq<string>, out: seq<string>, number: nat) {
    exists i: nat :: Reported(c, lines, out, number, i)
  }

  lemma ReportedFirst(c: Change, a: string, lines: seq<string>, b: string, out: seq<string>, number: nat)
    requires |lines| == |out|
    ensures Listed(c, [a] + lines, [b] + out, number) <==>
            (a != b && c == Change(number, a, b)) || Listed(c, lines, out, number + 1)
  {
    var m := number + 1;
    if i: nat :| Reported(c, lines, out, m, i) {
      assert Reported(c, [a] + lines, [b] + out, number, i + 1);
    }
    if i: nat :| Reported(c, [a] + lines, [b] + out, number, i) {
      if i > 0 { assert Reported(c, lines, out, m, i - 1); }
    }
    if a != b && c == Change(number, a, b) { assert Reported(c, [a] + lines, [b] + out, number, 0); }
  }

  /** The file is its lines, each rewritten; the report lists exactly the lines that changed, counted from the first. */
  lemma {:induction false} FileIsLines(text: string, number: nat, carry: Carry, kind: Kind, scrub: string -> string)
    ensures var lines := Split(text, '\n');
            var out, file := LinesOut(lines, carry, kind, scrub), FileOutput(text, number, carry, kind, scrub);
            && file.content == Join(out, '\n')
            && forall c :: c in file.changed <==> Listed(c, lines, out, number)
    decreases |text|
  {
    hide LineText, LineCarry, Split, Eol, RestOf, LinesOut, FileOutput, Listed, Prepend;
    if text == "" {
      NoLines(number, carry, kind, scrub);
    } else {
      var line := text[..Eol(text)];
      var next := LineCarry(line, carry, kind);
      FileStep(text, number, carry, kind, scrub);
      if Eol(text) < |text| {
        FileIsLines(RestOf(text), number + 1, next, kind, scrub);
        LinesCons(line, RestOf(text), number, carry, kind, scrub);
      } else {
        LastLineOut(line, number, carry, kind, scrub);
      }
    }
  }

  /** In prose every line is scrubbed as a whole. */
  lemma {:induction false} ProseLines(lines: seq<string>, carry: Carry, scrub: string -> string, i: nat)
    requires i < |lines|
    ensures LinesOut(lines, carry, Prose, scrub)[i] ==
            if i == |lines| - 1 && lines[i] == "" then "" else scrub(lines[i])
  {
    if i > 0 { ProseLines(lines[1..], carry, scrub, i - 1); }
  }

  lemma FileStep(text: string, number: nat, carry: Carry, kind: Kind, scrub: string -> string)
    requires text != ""
    ensures var line, newline := text[..Eol(text)], Eol(text) < |text|;
            && '\n' !in line && (!newline ==> text == line && RestOf(text) == "")
            && (newline ==> text == line + ['\n'] + RestOf(text))
            && FileOutput(text, number, carry, kind, scrub) ==
               Prepend(number, line, LineText(line, carry, kind, scrub), newline,
                       FileOutput(RestOf(text), number + 1, LineCarry(line, carry, kind), kind, scrub))
  {
    hide LineText, LineCarry, Prepend;
    TextSplit(text);
  }

  lemma NoLines(number: nat, carry: Carry, kind: Kind, scrub: string -> string)
    ensures var out := LinesOut(Split("", '\n'), carry, kind, scrub);
            && FileOutput("", number, carry, kind, scrub) == Output([], Join(out, '\n'))
            && forall c :: !Listed(c, Split("", '\n'), out, number)
  {
  }

  lemma LinesCons(line: string, rest: string, number: nat, carry: Carry, kind: Kind, scrub: string -> string)
    requires '\n' !in line
    requires var lines := Split(rest, '\n'); var next := LineCarry(line, carry, kind);
             var out, file := LinesOut(lines, next, kind, scrub), FileOutput(rest, number + 1, next, kind, scrub);
             && file.content == Join(out, '\n')
             && forall c :: c in file.changed <==> Listed(c, lines, out, number + 1)
    ensures var lines := Split(line + ['\n'] + rest, '\n');
            var out := LinesOut(lines, carry, kind, scrub);
            var file := Prepend(number, line, LineText(line, carry, kind, scrub), true,
                                FileOutput(rest, number + 1, LineCarry(line, carry, kind), kind, scrub));
            && file.content == Join(out, '\n')
            && forall c :: c in file.changed <==> Listed(c, lines, out, number)
  {
    hide LineText, LineCarry, Split, Listed, FileOutput;
    var after, next := LineText(line, carry, kind, scrub), LineCarry(line, carry, kind);
    var tail, file := Split(rest, '\n'), FileOutput(rest, number + 1, next, kind, scrub);
    var out := LinesOut(tail, next, kind, scrub);
    SplitOfField(line, rest, '\n');
    assert ([line] + tail)[1..] == tail && ([after] + out)[1..] == out;
    forall c: Change
      ensures c in Note(number, line, after) + file.changed <==> Listed(c, [line] + tail, [after] + out, number)
    {
      ReportedFirst(c, line, tail, after, out, number);
    }
  }

  lemma LastLineOut(line: string, number: nat, carry: Carry, kind: Kind, scrub: string -> string)
    requires '\n' !in line && line != ""
    ensures var lines := Split(line, '\n');
            var out := LinesOut(lines, carry, kind, scrub);
            var file := Prepend(number, line, LineText(line, carry, kind, scrub), false,
                                FileOutput("", number + 1, LineCarry(line, carry, kind), kind, scrub));
            && file.content == Join(out, '\n')
            && forall c :: c in file.changed <==> Listed(c, lines, out, number)
  {
    hide LineText, LineCarry, Split;
    var after := LineText(line, carry, kind, scrub);
    SplitOfField(line, "", '\n');
    assert FileOutput("", number + 1, LineCarry(line, carry, kind), kind, scrub) == Output([], "");
    assert after + "" + "" == after;
    forall c: Change ensures c in Note(number, line, after) + [] <==> Listed(c, [line], [after], number) {
      if c in Note(number, line, after) { assert Reported(c, [line], [after], number, 0); }
    }
  }

  // ----- What holds for whole files

  lemma TextSplit(text: string)
    requires text != ""
    ensures text == text[..Eol(text)] + Newline(Eol(text) < |text|) + RestOf(text)
  {
    hide Eol;
    if Eol(text) < |text| {
      CutAt(text, Eol(text));
    } else {
      assert text[..Eol(text)] == text;
    }
  }

  lemma PrependNothing(number: nat, before: string, after: string, newline: bool, rest: Output)
    ensures Prepend(number, before, after, newline, rest).changed == [] <==> before == after && rest.changed == []
  {
  }

  /** The file stays as it is when no line is reported. */
  lemma {:induction false} UnchangedFile(text: string, number: nat, carry: Carry, kind: Kind, scrub: string -> string)
    requires FileOutput(text, number, carry, kind, scrub).changed == []
    ensures FileOutput(text, number, carry, kind, scrub).content == text
    decreases |text|
  {
    hide LineText, LineCarry, RestOf, Newline;
    if text != "" {
      var line := text[..Eol(text)];
      var rest := FileOutput(RestOf(text), number + 1, LineCarry(line, carry, kind), kind, scrub);
      PrependNothing(number, line, LineText(line, carry, kind, scrub), Eol(text) < |text|, rest);
      UnchangedFile(RestOf(text), number + 1, LineCarry(line, carry, kind), kind, scrub);
      TextSplit(text);
    }
  }

  /** With nothing to scrub, a file comes out as it went in and no line is reported. */
  lemma {:induction false} IdentityFile(text: string, number: nat, carry: Carry, kind: Kind, scrub: string -> string)
    requires forall b: string :: scrub(b) == b
    ensures FileOutput(text, number, carry, kind, scrub) == Output([], text)
    decreases |text|
  {
    hide LexLine, Rewritten, RestOf, Newline;
    if text != "" {
      var line := text[..Eol(text)];
      if kind.Source? { IdentityRewrite(line, carry, kind.st, scrub); }
      IdentityFile(RestOf(text), number + 1, LineCarry(line, carry, kind), kind, scrub);
      TextSplit(text);
    }
  }

  ghost predicate NoNewlines(scrub: string -> string) {
    forall b: string :: '\n' !in b ==> '\n' !in scrub(b)
  }

  /** A scrub that may be applied to a file again and again. */
  ghost predicate Settled(scrub: string -> string, kind: Kind) {
    && (forall b: string :: scrub(scrub(b)) == scrub(b))
    && NoNewlines(scrub)
    && (kind.Source? ==> Safe(scrub, kind.st))
  }

  lemma {:induction false} FlatNewline(ts: seq<Token>, scrub: string -> string)
    requires '\n' !in Flat(ts) && NoNewlines(scrub)
    ensures '\n' !in Flat(Mapped(ts, scrub))
  {
    if ts != [] {
      assert forall c :: c in Flat(ts) <==> c in TextOf(ts[0]) || c in Flat(ts[1..]);
      FlatNewline(ts[1..], scrub);
      TokenNewline(ts[0], scrub);
      assert Mapped(ts, scrub)[1..] == Mapped(ts[1..], scrub);
    }
  }

  lemma TokenNewline(t: Token, scrub: string -> string)
    requires '\n' !in TextOf(t) && NoNewlines(scrub)
    ensures '\n' !in TextOf(MapToken(t, scrub))
  {
    if t.Scrubbed? || t.ScrubbedTail? {
      assert forall c :: c in t.body ==> c in TextOf(t);
      assert forall c :: c in t.open ==> c in TextOf(t);
      if t.Scrubbed? { assert forall c :: c in t.close ==> c in TextOf(t); }
    }
  }

  lemma LineSettled(line: string, carry: Carry, kind: Kind, scrub: string -> string)
    requires Settled(scrub, kind) && CarryOk(carry) && '\n' !in line
    ensures var once := LineText(line, carry, kind, scrub);
            && '\n' !in once && LineText(once, carry, kind, scrub) == once
            && LineCarry(once, carry, kind) == LineCarry(line, carry, kind)
            && CarryOk(LineCarry(line, carry, kind))
  {
    if kind.Source? {
      hide LexLine, Safe;
      RewriteIdempotent(line, carry, kind.st, scrub);
      Complete(line, carry, kind.st);
      FlatNewline(LexLine(line, carry, kind.st).tokens, scrub);
      CarryKept(line, carry, kind.st);
    }
  }

  /** The first line of a text is found again. */
  lemma {:induction false} EolOf(line: string, rest: string)
    requires '\n' !in line
    ensures Eol(line) == |line| && Eol(line + "\n" + rest) == |line|
  {
    var s := line + "\n" + rest;
    if line != "" {
      assert s[1..] == line[1..] + "\n" + rest;
      EolOf(line[1..], rest);
    }
  }

  /** Rewriting a text that starts with `line`. */
  lemma FirstLine(line: string, rest: string, newline: bool, number: nat, carry: Carry, kind: Kind, scrub: string -> string)
    requires '\n' !in line && (!newline ==> rest == "" && line != "")
    ensures FileOutput(line + Newline(newline) + rest, number, carry, kind, scrub) ==
            Prepend(number, line, LineText(line, carry, kind, scrub), newline,
                    FileOutput(rest, number + 1, LineCarry(line, carry, kind), kind, scrub))
  {
    hide LineText, LineCarry, Prepend;
    var s := line + Newline(newline) + rest;
    EolOf(line, rest);
    if newline {
      assert s == line + "\n" + rest && s[..|line|] == line && s[|line| + 1..] == rest;
    } else {
      assert s == line && s[..|line|] == line;
    }
  }

  /** After a rewrite, a second one changes nothing and reports nothing. */
  lemma {:induction false} RewriteOnce(text: string, number: nat, carry: Carry, kind: Kind, scrub: string -> string)
    requires Settled(scrub, kind) && CarryOk(carry)
    ensures var once := FileOutput(text, number, carry, kind, scrub).content;
            FileOutput(once, number, carry, kind, scrub) == Output([], once)
    decreases |text|
  {
    hide LineText, LineCarry, Settled, RestOf;
    if text != "" {
      var line, newline := text[..Eol(text)], Eol(text) < |text|;
      var after, next := LineText(line, carry, kind, scrub), LineCarry(line, carry, kind);
      var rest := FileOutput(RestOf(text), number + 1, next, kind, scrub).content;
      LineSettled(line, carry, kind, scrub);
      RewriteOnce(RestOf(text), number + 1, next, kind, scrub);
      LastLine(text, number + 1, next, kind, scrub);
      if newline || after != "" {
        FirstLine(after, rest, newline, number, carry, kind, scrub);
      }
    }
  }

  lemma LastLine(text: string, number: nat, carry: Carry, kind: Kind, scrub: string -> string)
    requires text != ""
    ensures Eol(text) == |text| ==> FileOutput(RestOf(text), number, carry, kind, scrub) == Output([], "")
  {
  }
}
