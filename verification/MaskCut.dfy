/**
 Cutting the last argument out of a call (`_doctor_drop_pool_argument` of
 scripts/check_conv_pool_identity.py): the comma and the closing parenthesis are found
 in the masked text, the raw text is cut there, and the result is masked again.
 */
module MaskCut {
  import opened Scanning
  import opened Brackets
  import opened CallArguments
  import opened CMask

  // ----- The automaton step by step

  /** One step of the masking automaton: what it reads, whether that is masked, and the mode after it. */
  datatype Step = Step(width: nat, masked: bool, next: Mode)

  function StepOf(s: string, m: Mode): (r: Step)
    requires s != ""
    ensures 1 <= r.width <= 2 && r.width <= |s|
  {
    match m
    case Code =>
      if "/*" <= s then Step(2, true, Block)
      else if "//" <= s then Step(2, true, Line)
      else if IsQuote(s[0]) then Step(1, false, Literal(s[0]))
      else Step(1, false, Code)
    case Block => if "*/" <= s then Step(2, true, Code) else Step(1, true, Block)
    case Line => if s[0] == '\n' then Step(1, false, Code) else Step(1, true, Line)
    case Literal(q) =>
      if s[0] == '\\' && |s| > 1 then Step(2, true, m)
      else if s[0] == q then Step(1, true, Code)
      else Step(1, true, m)
  }

  function Flags(r: Step): seq<bool> {
    if r.width == 2 then [r.masked, r.masked] else [r.masked]
  }

  lemma InsideStep(s: string, m: Mode)
    requires s != ""
    ensures var r := StepOf(s, m); Inside(s, m) == Flags(r) + Inside(s[r.width..], r.next)
  {
  }

  /** The automaton stands at offset `k` in code. */
  predicate InCodeAt(s: string, m: Mode, k: nat)
    decreases k
  {
    if k == 0 then m == Code
    else if s == "" then false
    else
      var r := StepOf(s, m);
      r.width <= k && InCodeAt(s[r.width..], r.next, k - r.width)
  }

  /** From an offset in code the automaton reads on as from the start of a text. */
  lemma {:induction false} CodeFrom(s: string, m: Mode, k: nat)
    requires k <= |s| && InCodeAt(s, m, k)
    ensures Inside(s, m)[k..] == Inside(s[k..], Code)
    decreases k
  {
    hide Inside, StepOf;
    if k == 0 {
      assert s[0..] == s && Inside(s, m)[0..] == Inside(s, m);
    } else {
      var r := StepOf(s, m);
      InsideStep(s, m);
      CodeFrom(s[r.width..], r.next, k - r.width);
      assert s[r.width..][k - r.width..] == s[k..];
      assert |Flags(r)| == r.width;
      assert Inside(s, m)[k..] == Inside(s[r.width..], r.next)[k - r.width..];
    }
  }

  /** A character of a call, neither a quote nor a newline nor part of a mark. */
  predicate Plainly(c: char) {
    !IsQuote(c) && c != '\n' && c != '/' && c != '*'
  }

  /** A plain character that is not masked is read in code. */
  lemma {:induction false} UnmaskedInCode(s: string, m: Mode, k: nat)
    requires k < |s| && Plainly(s[k]) && !Inside(s, m)[k]
    ensures InCodeAt(s, m, k)
    decreases k
  {
    hide Inside;
    var r := StepOf(s, m);
    InsideStep(s, m);
    if k >= r.width {
      UnmaskedInCode(s[r.width..], r.next, k - r.width);
    }
  }

  /** What follows an offset in code does not matter before it, as long as it starts plainly. */
  lemma {:induction false} SameBefore(a: string, x: string, y: string, m: Mode)
    requires x != "" && y != "" && Plainly(x[0]) && Plainly(y[0]) && InCodeAt(a + x, m, |a|)
    ensures InCodeAt(a + y, m, |a|) && Inside(a + x, m)[..|a|] == Inside(a + y, m)[..|a|]
    decreases |a|
  {
    hide Inside, StepOf;
    if a != "" {
      var s, s' := a + x, a + y;
      var r := StepOf(s, m);
      SameStep(a, x, y, m);
      assert s[r.width..] == a[r.width..] + x && s'[r.width..] == a[r.width..] + y;
      SameBefore(a[r.width..], x, y, r.next);
      InsideStep(s, m);
      InsideStep(s', m);
      PrefixOfConcat(Flags(r), Inside(s[r.width..], r.next), |a|);
      PrefixOfConcat(Flags(r), Inside(s'[r.width..], r.next), |a|);
    }
  }

  lemma PrefixOfConcat<T>(f: seq<T>, g: seq<T>, n: nat)
    requires |f| <= n <= |f| + |g|
    ensures (f + g)[..n] == f + g[..n - |f|]
  {
  }

  lemma SameStep(a: string, x: string, y: string, m: Mode)
    requires a != "" && x != "" && y != "" && Plainly(x[0]) && Plainly(y[0])
    requires StepOf(a + x, m).width <= |a|
    ensures StepOf(a + y, m) == StepOf(a + x, m)
  {
    var s, s' := a + x, a + y;
    assert s[0] == a[0] == s'[0];
    if |a| == 1 {
      assert s[1] == x[0] && s'[1] == y[0];
    } else {
      assert s[1] == a[1] == s'[1];
    }
    Pairs(s);
    Pairs(s');
  }

  lemma Pairs(s: string)
    requires |s| >= 2
    ensures "/*" <= s <==> s[0] == '/' && s[1] == '*'
    ensures "//" <= s <==> s[0] == '/' && s[1] == '/'
    ensures "*/" <= s <==> s[0] == '*' && s[1] == '/'
  {
    assert s[..2] == [s[0], s[1]];
  }

  // ----- Cutting

  lemma UnmaskedChar(text: string, k: nat)
    requires k < |text| && Masked(text)[k] in ",)"
    ensures text[k] == Masked(text)[k] && !Inside(text, Code)[k] && InCodeAt(text, Code, k)
  {
    hide Inside, InCodeAt;
    UnmaskedInCode(text, Code, k);
  }

  /** Masking the cut raw text gives the cut masked text, for a cut between two commas or parentheses of the code. */
  lemma MaskedCut(text: string, c: nat, e: nat)
    requires c <= e < |text| && Masked(text)[c] in ",)" && Masked(text)[e] in ",)"
    ensures Masked(text[..c] + text[e..]) == Masked(text)[..c] + Masked(text)[e..]
  {
    hide Inside, InCodeAt, BlankOut;
    var a, x, y := text[..c], text[c..], text[e..];
    var flags, cut := Inside(text, Code), a + y;
    UnmaskedChar(text, c);
    UnmaskedChar(text, e);
    assert text == a + x;
    SameBefore(a, x, y, Code);
    CodeFrom(text, Code, e);
    CodeFrom(cut, Code, c);
    assert cut[c..] == y;
    assert Inside(cut, Code) == Inside(cut, Code)[..c] + Inside(cut, Code)[c..];
    BlankOutCut(text, flags, c, e);
  }

  lemma BlankOutCut(text: string, flags: seq<bool>, c: nat, e: nat)
    requires c <= e <= |text| == |flags|
    ensures var r := BlankOut(text, flags);
            BlankOut(text[..c] + text[e..], flags[..c] + flags[e..]) == r[..c] + r[e..]
  {
    hide BlankOut;
    var r, s, g := BlankOut(text, flags), text[..c] + text[e..], flags[..c] + flags[e..];
    forall k | 0 <= k < |s| ensures BlankOut(s, g)[k] == (r[..c] + r[e..])[k] {
      if k < c {
        assert s[k] == text[k] && g[k] == flags[k];
      } else {
        assert s[k] == text[e + k - c] && g[k] == flags[e + k - c];
      }
    }
  }

  /**
   A call whose last argument is cut out of the file: once the file is masked again, the
   call ends at the cut, exactly when the arguments before it close their parentheses,
   and its arguments are those before the last one, unless one blank argument is left.
   */
  lemma CutFile(text: string, open: nat, close: nat, c: nat)
    requires open < |text| && Masked(text)[open] == '(' && ClosesAt(Masked(text), open, close)
    requires LastComma(Masked(text), open + 1, close, c)
    ensures var before, after := Masked(text), Masked(text[..c] + text[close..]);
            && c <= |after|
            && (ClosesAt(after, open, c) <==> Net(before[open + 1..c], Paren) == 0)
            && var all, left := Cleaned(RawSplit(before[open + 1..close])), RawSplit(after[open + 1..c]);
               && |all| >= 2
               && (Cleaned(left) == all[..|all| - 1] <==> !(|left| == 1 && Strip(left[0]) == ""))
  {
    hide Masked, RawSplit, Cleaned, Strip, Net;
    MaskKeepsOffsets(text, open);
    MaskedCut(text, c, close);
    CutCall(Masked(text), open, close, c);
    CutRemovesLast(Masked(text), open + 1, close, c);
  }
}
