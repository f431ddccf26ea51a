/**
 The C masker of scripts/check_conv_pool_identity.py: it blanks comments and the
 contents of literals in place, jumping from delimiter to delimiter, and keeps every
 offset. It is proved against an automaton that reads one character at a time.
 */
module CMask {
  import opened Scanning
  import opened Text

  datatype Mode = Code | Block | Line | Literal(q: char)

  /**
   The automaton: for each position, whether it lies in a comment or inside a literal.
   The opening quote of a literal counts as code, its closing quote does not.
   */
  function Inside(s: string, m: Mode): (r: seq<bool>)
    ensures |r| == |s|
  {
    if s == "" then []
    else
      match m
      case Code =>
        if "/*" <= s then [true, true] + Inside(s[2..], Block)
        else if "//" <= s then [true, true] + Inside(s[2..], Line)
        else if IsQuote(s[0]) then [false] + Inside(s[1..], Literal(s[0]))
        else [false] + Inside(s[1..], Code)
      case Block =>
        if "*/" <= s then [true, true] + Inside(s[2..], Code)
        else [true] + Inside(s[1..], Block)
      case Line =>
        if s[0] == '\n' then [false] + Inside(s[1..], Code)
        else [true] + Inside(s[1..], Line)
      case Literal(q) =>
        if s[0] == '\\' && |s| > 1 then [true, true] + Inside(s[2..], m)
        else if s[0] == q then [true] + Inside(s[1..], Code)
        else [true] + Inside(s[1..], m)
  }

  function BlankChar(c: char): char {
    if c == '\n' then c else ' '
  }

  /** Blanks the flagged positions, except newlines. */
  function BlankOut(s: string, flags: seq<bool>): (r: string)
    requires |flags| == |s|
    ensures |r| == |s|
    ensures forall k :: 0 <= k < |s| ==> r[k] == if flags[k] then BlankChar(s[k]) else s[k]
  {
    if s == "" then "" else [if flags[0] then BlankChar(s[0]) else s[0]] + BlankOut(s[1..], flags[1..])
  }

  /** What the masker must produce. */
  function Masked(text: string): string {
    BlankOut(text, Inside(text, Code))
  }

  // ----- Whole comments and literals at once

  function Ones(n: nat): (r: seq<bool>)
    ensures |r| == n && forall k :: 0 <= k < n ==> r[k]
  {
    if n == 0 then [] else [true] + Ones(n - 1)
  }

  lemma {:induction false} BlockClosed(b: string, rest: string)
    requires FirstClose(b, "*/")
    ensures Inside(b + "*/" + rest, Block) == Ones(|b| + 2) + Inside(rest, Code)
  {
    var s := b + "*/" + rest;
    if b == "" {
      assert s == "*/" + rest && s[2..] == rest;
      assert Ones(2) == [true, true];
    } else {
      NotAtStart(b, "*/", rest);
      ShorterFirstClose(b, "*/");
      assert s[1..] == b[1..] + "*/" + rest;
      BlockClosed(b[1..], rest);
    }
  }

  lemma {:induction false} BlockOpen(b: string)
    requires NoClose(b, "*/")
    ensures Inside(b, Block) == Ones(|b|)
  {
    if b != "" {
      assert !At(b, "*/", 0);
      ShorterNoClose(b, "*/");
      BlockOpen(b[1..]);
    }
  }

  lemma {:induction false} LineRun(b: string, rest: string)
    requires '\n' !in b && (rest == "" || rest[0] == '\n')
    ensures Inside(b + rest, Line) == Ones(|b|) + Inside(rest, Code)
  {
    var s := b + rest;
    if b == "" {
      assert s == rest;
    } else {
      assert s[1..] == b[1..] + rest;
      LineRun(b[1..], rest);
    }
  }

  lemma {:induction false} LiteralClosed(b: string, q: char, rest: string)
    requires IsQuote(q) && QuotedBody(b, q)
    ensures Inside(b + [q] + rest, Literal(q)) == Ones(|b| + 1) + Inside(rest, Code)
  {
    var s := b + [q] + rest;
    if b == "" {
      assert s[1..] == rest && Ones(1) == [true];
    } else if b[0] == '\\' {
      assert s[2..] == b[2..] + [q] + rest;
      LiteralClosed(b[2..], q, rest);
      assert Ones(|b| + 1) == [true, true] + Ones(|b| - 1);
    } else {
      assert s[1..] == b[1..] + [q] + rest;
      LiteralClosed(b[1..], q, rest);
    }
  }

  lemma {:induction false} LiteralOpen(b: string, q: char)
    requires IsQuote(q) && CloseAt(b, q).None?
    ensures Inside(b, Literal(q)) == Ones(|b|)
  {
    if b != "" {
      if b[0] == '\\' && |b| > 1 {
        LiteralOpen(b[2..], q);
        assert Ones(|b|) == [true, true] + Ones(|b| - 2);
      } else if b[0] != '\\' {
        LiteralOpen(b[1..], q);
      } else {
        assert b[1..] == "";
      }
    }
  }

  // ----- The masker

  /** The text is masked before `i` and untouched from `i` on. */
  predicate Progress(text: string, cur: string, i: nat) {
    && i <= |text| && |cur| == |text|
    && Inside(text, Code)[i..] == Inside(text[i..], Code)
    && (forall k :: 0 <= k < i ==> cur[k] == Masked(text)[k])
    && (forall k :: i <= k < |text| ==> cur[k] == text[k])
  }

  /** `next` is `cur` with the positions from `a` up to `b` blanked. */
  predicate Blanked(cur: string, next: string, a: nat, b: nat) {
    && |next| == |cur|
    && forall k :: 0 <= k < |cur| ==> next[k] == if a <= k < b then BlankChar(cur[k]) else cur[k]
  }

  /** Moving on from `i` to `j`, where everything from `a` on was inside a comment or literal. */
  lemma ProgressStep(text: string, cur: string, next: string, i: nat, a: nat, j: nat)
    requires Progress(text, cur, i) && i <= a <= j <= |text| && Blanked(cur, next, a, j)
    requires Inside(text[i..], Code) == Zeros(a - i) + Ones(j - a) + Inside(text[j..], Code)
    ensures Progress(text, next, j)
  {
    hide Inside, Ones, Zeros, BlankOut;
    var flags := Inside(text, Code);
    assert flags[j..] == flags[i..][j - i..];
    forall k | i <= k < j ensures flags[k] == (a <= k) {
      assert flags[k] == flags[i..][k - i];
    }
  }

  function Zeros(n: nat): (r: seq<bool>)
    ensures |r| == n && forall k :: 0 <= k < n ==> !r[k]
  {
    if n == 0 then [] else [false] + Zeros(n - 1)
  }

  /** Blanks a range in place; newlines stay unless `all` is set. */
  method BlankRange(out: array<char>, from: nat, to: nat, all: bool)
    requires from <= to <= out.Length && (all ==> '\n' !in out[from..to])
    modifies out
    ensures Blanked(old(out[..]), out[..], from, to)
  {
    for k := from to to
      invariant forall i :: 0 <= i < out.Length ==> out[i] == if from <= i < k then BlankChar(old(out[i])) else old(out[i])
    {
      if all {
        assert out[k] in old(out[from..to]);
        out[k] := ' ';
      } else if out[k] != '\n' {
        out[k] := ' ';
      }
    }
  }

  /** Where the block comment that opens at `i` ends. */
  function BlockEnd(text: string, i: nat): nat {
    var j := Find(text, "*/", i + 2);
    if j < 0 then |text| else j + 2
  }

  lemma BlockFlags(text: string, i: nat)
    requires At(text, "/*", i)
    ensures var j := BlockEnd(text, i);
            i < j <= |text| && Inside(text[i..], Code) == Zeros(0) + Ones(j - i) + Inside(text[j..], Code)
  {
    hide FirstClose, NoClose, Find;
    var j := BlockEnd(text, i);
    var s := text[i..];
    FoundBody(text, "*/", i + 2);
    assert s[..2] == "/*" && s[2..] == text[i + 2..];
    if Find(text, "*/", i + 2) < 0 {
      BlockOpen(s[2..]);
      assert text[|text|..] == "";
    } else {
      BlockClosed(text[i + 2..j - 2], text[j..]);
    }
    OnesMore(j - i - 2);
  }

  lemma OnesMore(n: nat)
    ensures Ones(n + 2) == [true, true] + Ones(n) && Zeros(0) == []
  {
  }

  /** Where the line comment that opens at `i` ends. */
  function LineEnd(text: string, i: nat): nat {
    var j := Find(text, "\n", i);
    if j < 0 then |text| else j
  }

  lemma LineFlags(text: string, i: nat)
    requires At(text, "//", i)
    ensures var j := LineEnd(text, i);
            && i < j <= |text| && '\n' !in text[i..j]
            && Inside(text[i..], Code) == Zeros(0) + Ones(j - i) + Inside(text[j..], Code)
  {
    hide Find;
    var j := LineEnd(text, i);
    var s := text[i..];
    NewlineFound(text, i);
    assert s[..2] == "//" && s[2..] == text[i + 2..];
    assert text[i] == '/' && text[i + 1] == '/' by { assert s[0] == '/' && s[1] == '/'; }
    assert text[i + 2..] == text[i + 2..j] + text[j..];
    LineRun(text[i + 2..j], text[j..]);
    OnesMore(j - i - 2);
  }

  lemma NewlineFound(text: string, i: nat)
    requires i <= |text|
    ensures var j := LineEnd(text, i);
            i <= j <= |text| && '\n' !in text[i..j] && (j < |text| ==> text[j] == '\n')
  {
    var j := LineEnd(text, i);
    forall k | i <= k < j ensures text[k] != '\n' {
      assert !At(text, "\n", k);
      assert text[k..k + 1] == [text[k]];
    }
    if j < |text| { assert text[j..j + 1] == [text[j]]; }
  }

  /** Where the literal that opens at `i` ends: after its closing quote, or at the end of the text. */
  function LiteralEnd(text: string, i: nat): nat
    requires i < |text|
  {
    var c := CloseFrom(text, i + 1, text[i]);
    if c.None? then |text| else c.value + 1
  }

  lemma LiteralFlags(text: string, i: nat)
    requires i < |text| && IsQuote(text[i])
    ensures var j := LiteralEnd(text, i);
            i < j <= |text| && Inside(text[i..], Code) == Zeros(1) + Ones(j - i - 1) + Inside(text[j..], Code)
  {
    hide QuotedBody;
    var j, q, s := LiteralEnd(text, i), text[i], text[i..];
    assert s[0] == q && s[1..] == text[i + 1..] && Zeros(1) == [false];
    if CloseAt(text[i + 1..], q).None? {
      LiteralOpen(text[i + 1..], q);
      assert text[|text|..] == "";
    } else {
      var e := CloseAt(text[i + 1..], q).value;
      CloseAtBody(text[i + 1..], q, e);
      var b := text[i + 1..][..e];
      assert text[i + 1..] == b + [q] + text[j..];
      LiteralClosed(b, q, text[j..]);
    }
  }

  /** Scans for the end of the literal that opens at `i`; past the text after a dangling escape. */
  method LiteralScan(text: string, i: nat) returns (j: nat)
    requires i < |text| && IsQuote(text[i])
    ensures i < j && LiteralEnd(text, i) == if j > |text| then |text| else j
  {
    hide CloseFrom;
    var n, quote := |text|, text[i];
    j := i + 1;
    while j < n
      invariant i < j <= n + 1 && CloseFrom(text, i + 1, quote) == CloseFrom(text, j, quote)
    {
      CloseStep(text, j, quote);
      if text[j] == '\\' {
        j := j + 2;
        continue;
      }
      if text[j] == quote {
        j := j + 1;
        return;
      }
      j := j + 1;
    }
    CloseStep(text, j, quote);
  }

  lemma CodeFlags(text: string, i: nat)
    requires i < |text| && !At(text, "/*", i) && !At(text, "//", i) && !IsQuote(text[i])
    ensures Inside(text[i..], Code) == Zeros(1) + Ones(0) + Inside(text[i + 1..], Code)
  {
    var s := text[i..];
    assert s[1..] == text[i + 1..] && Zeros(1) == [false];
    if |s| >= 2 { assert s[..2] == text[i..i + 2]; }
  }

  /** A block comment: blanked up to and including its closing mark. */
  method MaskBlock(text: string, out: array<char>, i: nat) returns (j: nat)
    requires At(text, "/*", i) && Progress(text, out[..], i)
    modifies out
    ensures i < j <= |text| && Progress(text, out[..], j)
  {
    hide Progress, Blanked, At, Find, Inside, Ones, Zeros;
    BlockFlags(text, i);
    ghost var cur := out[..];
    ProgressLength(text, cur, i);
    var end := Find(text, "*/", i + 2);
    j := if end < 0 then |text| else end + 2;
    BlankRange(out, i, j, false);
    ProgressStep(text, cur, out[..], i, i, j);
  }

  lemma ProgressLength(text: string, cur: string, i: nat)
    requires Progress(text, cur, i)
    ensures i <= |text| == |cur| && cur[i..] == text[i..]
  {
  }

  /** A line comment: blanked up to its newline. */
  method MaskLine(text: string, out: array<char>, i: nat) returns (j: nat)
    requires At(text, "//", i) && Progress(text, out[..], i)
    modifies out
    ensures i < j <= |text| && Progress(text, out[..], j)
  {
    hide Progress, Blanked, At, Find, Inside, Ones, Zeros;
    LineFlags(text, i);
    ghost var cur := out[..];
    ProgressLength(text, cur, i);
    var end := Find(text, "\n", i);
    j := if end < 0 then |text| else end;
    SameSlice(cur, text, i, j);
    BlankRange(out, i, j, true);
    ProgressStep(text, cur, out[..], i, i, j);
  }

  lemma SameSlice(a: string, b: string, i: nat, j: nat)
    requires i <= j <= |a| == |b| && a[i..] == b[i..]
    ensures a[i..j] == b[i..j]
  {
    SliceOfSlice(a, i, |a|, 0, j - i);
    SliceOfSlice(b, i, |b|, 0, j - i);
    assert a[i..] == a[i..|a|] && b[i..] == b[i..|b|];
  }

  /** A literal: blanked after its opening quote, including its closing quote. */
  method MaskLiteral(text: string, out: array<char>, i: nat) returns (j: nat)
    requires i < |text| && IsQuote(text[i]) && Progress(text, out[..], i)
    modifies out
    ensures i < j && Progress(text, out[..], if j > |text| then |text| else j)
  {
    hide Progress, Blanked, LiteralEnd, Inside, Ones, Zeros;
    LiteralFlags(text, i);
    ghost var cur := out[..];
    ProgressLength(text, cur, i);
    j := LiteralScan(text, i);
    var to := if j > |text| then |text| else j;
    BlankRange(out, i + 1, to, false);
    ProgressStep(text, cur, out[..], i, i + 1, to);
  }

  /** Masks a text: exactly the positions the automaton marks are blanked, and newlines stay. */
  method Mask(text: string) returns (r: string)
    ensures r == Masked(text)
  {
    hide Progress, Masked, Blanked;
    var n := |text|;
    var out := new char[n](k requires 0 <= k < n => text[k]);
    assert out[..] == text;
    StartMask(text);
    var i := 0;
    while i < n
      invariant out.Length == n && Progress(text, out[..], if i > n then n else i)
    {
      if At(text, "/*", i) {
        i := MaskBlock(text, out, i);
      } else if At(text, "//", i) {
        i := MaskLine(text, out, i);
      } else if IsQuote(text[i]) {
        i := MaskLiteral(text, out, i);
      } else {
        CodeFlags(text, i);
        SameBlanked(out[..], i + 1);
        ProgressStep(text, out[..], out[..], i, i + 1, i + 1);
        i := i + 1;
      }
    }
    r := out[..];
    FinishMask(text, r);
  }

  lemma SameBlanked(cur: string, a: nat)
    ensures Blanked(cur, cur, a, a)
  {
  }

  lemma StartMask(text: string)
    ensures Progress(text, text, 0)
  {
    assert text[0..] == text && Inside(text, Code)[0..] == Inside(text, Code);
  }

  lemma FinishMask(text: string, r: string)
    requires Progress(text, r, |text|)
    ensures r == Masked(text)
  {
  }

  // ----- What masking preserves

  /** Offsets survive: same length, newlines in the same places, and only blanks are written. */
  lemma MaskKeepsOffsets(text: string, k: nat)
    requires k < |text|
    ensures |Masked(text)| == |text|
    ensures Masked(text)[k] == '\n' <==> text[k] == '\n'
    ensures Masked(text)[k] == text[k] || Masked(text)[k] == ' '
    ensures Masked(text)[k] == text[k] <==> !Inside(text, Code)[k] || text[k] in " \n"
  {
    hide Inside;
    assert BlankChar('\n') == '\n';
  }

  function Count(s: string, c: char): nat {
    if s == "" then 0 else (if s[0] == c then 1 else 0) + Count(s[1..], c)
  }

  /** Line number of an offset. */
  function LineOf(text: string, index: nat): nat {
    Count(text[..if index > |text| then |text| else index], '\n') + 1
  }

  lemma {:induction false} FieldsCounted(s: string)
    ensures |Split(s, '\n')| == Count(s, '\n') + 1
  {
    if s != "" { FieldsCounted(s[1..]); }
  }

  /** The line number is the number of lines the text before the offset touches. */
  lemma LineOfSplit(text: string, index: nat)
    requires index <= |text|
    ensures LineOf(text, index) == |Split(text[..index], '\n')|
  {
    FieldsCounted(text[..index]);
  }

  lemma {:induction false} CountAgrees(a: string, b: string, c: char)
    requires |a| == |b| && forall k :: 0 <= k < |a| ==> (a[k] == c <==> b[k] == c)
    ensures Count(a, c) == Count(b, c)
  {
    if a != "" { CountAgrees(a[1..], b[1..], c); }
  }

  /** Line numbers agree on the masked and the raw text. */
  lemma MaskKeepsLines(text: string, index: nat)
    ensures LineOf(Masked(text), index) == LineOf(text, index)
  {
    hide Masked;
    if text != "" { MaskKeepsOffsets(text, 0); } else { assert |Masked(text)| == 0 by { MaskedEmpty(); } }
    var n := if index > |text| then |text| else index;
    forall k | 0 <= k < n ensures Masked(text)[..n][k] == '\n' <==> text[..n][k] == '\n' {
      MaskKeepsOffsets(text, k);
    }
    CountAgrees(Masked(text)[..n], text[..n], '\n');
  }

  lemma MaskedEmpty()
    ensures Masked("") == ""
  {
  }

  /** How often `c` occurs in code before `index`. */
  function CodeCount(text: string, flags: seq<bool>, c: char): nat
    requires |flags| == |text|
  {
    if text == "" then 0
    else (if text[0] == c && !flags[0] then 1 else 0) + CodeCount(text[1..], flags[1..], c)
  }

  lemma {:induction false} CountOfBlanked(text: string, flags: seq<bool>, c: char)
    requires |flags| == |text| && c != ' ' && c != '\n'
    ensures Count(BlankOut(text, flags), c) == CodeCount(text, flags, c)
  {
    if text != "" { CountOfBlanked(text[1..], flags[1..], c); }
  }

  /** Brace depth just before `index` of a masked text. */
  function DepthAt(masked: string, index: nat): int {
    var s := masked[..if index > |masked| then |masked| else index];
    Count(s, '{') - Count(s, '}')
  }

  lemma {:induction false} BlankOutPrefix(s: string, flags: seq<bool>, n: nat)
    requires |flags| == |s| && n <= |s|
    ensures BlankOut(s, flags)[..n] == BlankOut(s[..n], flags[..n])
  {
  }

  /** Depth on the masked text counts exactly the braces in code, none inside a comment or literal. */
  lemma DepthCountsCode(text: string, index: nat)
    requires index <= |text|
    ensures var flags := Inside(text, Code)[..index];
            DepthAt(Masked(text), index) == CodeCount(text[..index], flags, '{') - CodeCount(text[..index], flags, '}')
  {
    hide Inside;
    var flags := Inside(text, Code);
    BlankOutPrefix(text, flags, index);
    CountOfBlanked(text[..index], flags[..index], '{');
    CountOfBlanked(text[..index], flags[..index], '}');
  }
}
