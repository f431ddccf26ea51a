/**
 What the C masker does with each form of comment and literal, in literal characters.
 */
module MaskSyntax {
  import opened Text
  import opened Scanning
  import opened CMask

  /** Blanks for everything but newlines. */
  function Wiped(s: string): (r: string)
    ensures |r| == |s| && forall k :: 0 <= k < |s| ==> r[k] == if s[k] == '\n' then '\n' else ' '
  {
    if s == "" then "" else [if s[0] == '\n' then '\n' else ' '] + Wiped(s[1..])
  }

  /** The masked text starts with `text` and then goes on as for `rest` alone. */
  ghost predicate MasksTo(s: string, text: string, rest: string) {
    Masked(s) == text + Masked(rest)
  }

  /** From the flags of the automaton to the masked text. */
  lemma FlagsGoOn(x: string, text: string, flags: seq<bool>, rest: string)
    requires |flags| == |x| == |text| && Inside(x + rest, Code) == flags + Inside(rest, Code)
    requires forall k :: 0 <= k < |x| ==> text[k] == if flags[k] then (if x[k] == '\n' then '\n' else ' ') else x[k]
    ensures MasksTo(x + rest, text, rest)
  {
    hide Inside, BlankOut;
    var s, g := x + rest, flags + Inside(rest, Code);
    forall k | 0 <= k < |s| ensures Masked(s)[k] == (text + Masked(rest))[k] {
      if k < |x| {
        assert s[k] == x[k] && g[k] == flags[k];
      } else {
        assert s[k] == rest[k - |x|] && g[k] == Inside(rest, Code)[k - |x|];
      }
    }
  }

  /** Code without quotes and slashes stays. */
  lemma {:induction false} CodeStays(a: string, s: string)
    requires forall c :: c in a ==> c !in ['"', '\'', '/']
    ensures MasksTo(a + s, a, s)
  {
    hide BlankOut, Inside;
    CodeInside(a, s);
    FlagsGoOn(a, a, Zeros(|a|), s);
  }

  lemma {:induction false} CodeInside(a: string, s: string)
    requires forall c :: c in a ==> c !in ['"', '\'', '/']
    ensures Inside(a + s, Code) == Zeros(|a|) + Inside(s, Code)
  {
    hide Inside;
    if a == "" {
      assert a + s == s && Zeros(0) == [];
    } else {
      assert a == [a[0]] + a[1..] && a[0] in a;
      assert forall c :: c in a[1..] ==> c in a;
      ConcatAssoc([a[0]], a[1..], s);
      CodeChar(a[0], a[1..] + s);
      CodeInside(a[1..], s);
    }
  }

  lemma CodeChar(c: char, r: string)
    requires c !in ['"', '\'', '/']
    ensures Inside([c] + r, Code) == [false] + Inside(r, Code)
  {
    assert ([c] + r)[0] == c && ([c] + r)[1..] == r;
  }

  /** A line comment is blanked up to its newline. */
  lemma LineComment(b: string, rest: string)
    requires '\n' !in b
    ensures MasksTo("//" + b + "\n" + rest, Wiped("//" + b), "\n" + rest)
  {
    hide BlankOut;
    var x, s := "//" + b, "\n" + rest;
    assert x + s == "//" + b + "\n" + rest && (x + s)[2..] == b + s;
    LineRun(b, s);
    OnesMore(|b|);
    var r := "//" + (b + s);
    assert x + s == r && r[..2] == "//" && r[1] == '/' && !("/*" <= r) && "//" <= r;
    assert Inside(r, Code) == [true, true] + Inside(b + s, Line);
    FlagsGoOn(x, Wiped(x), Ones(|x|), s);
  }

  /** A block comment is blanked, marks included, and its newlines stay. */
  lemma BlockComment(b: string, rest: string)
    requires '*' !in b
    ensures MasksTo("/*" + b + "*/" + rest, Wiped("/*" + b + "*/"), rest)
  {
    hide BlankOut, FirstClose, NoClose;
    var x := "/*" + b + "*/";
    NoStarClose(b);
    assert (x + rest)[2..] == b + "*/" + rest;
    BlockClosed(b, rest);
    OnesMore(|b| + 2);
    FlagsGoOn(x, Wiped(x), Ones(|x|), rest);
  }

  /** A string or character literal keeps its opening quote; its text and its closing quote are blanked. */
  lemma QuotedLiteral(q: char, b: string, rest: string)
    requires q in ['"', '\''] && QuotedBody(b, q)
    ensures MasksTo([q] + b + [q] + rest, [q] + Wiped(b + [q]), rest)
  {
    hide BlankOut, QuotedBody;
    var x, w := [q] + b + [q], [q] + Wiped(b + [q]);
    assert (x + rest)[1..] == b + [q] + rest && (x + rest)[0] == q;
    LiteralClosed(b, q, rest);
    var flags := [false] + Ones(|b| + 1);
    assert Inside(x + rest, Code) == flags + Inside(rest, Code);
    forall k | 0 <= k < |x| ensures w[k] == if flags[k] then (if x[k] == '\n' then '\n' else ' ') else x[k] {
      if k > 0 { assert x[k] == (b + [q])[k - 1]; }
    }
    FlagsGoOn(x, w, flags, rest);
  }

  /** A backslash hides the closing quote. */
  lemma EscapedLiteral(q: char, b: string, c: string, rest: string)
    requires q in ['"', '\''] && Ordinary(b, q) && Ordinary(c, q)
    ensures var body := b + ['\\', q] + c;
            MasksTo([q] + body + [q] + rest, [q] + Wiped(body + [q]), rest)
  {
    hide QuotedBody, MasksTo;
    EscapedBody(b, q, c, q);
    QuotedLiteral(q, b + ['\\', q] + c, rest);
  }
}
