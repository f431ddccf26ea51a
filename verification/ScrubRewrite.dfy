/**
 The rewriter of scripts/scrub-internal-ids.py as it is written, with index jumps
 over each comment and string, proved against the automaton.
 */
module ScrubRewrite {
  import opened Scanning
  import opened Text
  import opened ScrubLexer
  import opened ScrubGrammar

  /** Index of the close quote of the literal that opens at `i`, or -1. */
  method ScanQuote(line: string, i: nat, quote: char) returns (j: int)
    requires i < |line|
    ensures j >= -1 && CloseFrom(line, i + 1, quote) == if j < 0 then None else Some(j)
  {
    hide CloseFrom;
    var n := |line|;
    j := i + 1;
    while j < n
      invariant i < j && CloseFrom(line, i + 1, quote) == CloseFrom(line, j, quote)
    {
      CloseStep(line, j, quote);
      if line[j] == '\\' {
        j := j + 2;
        continue;
      }
      if line[j] == quote {
        return;
      }
      j := j + 1;
    }
    CloseStep(line, j, quote);
    j := -1;
  }

  /** What is left to do for the text from `i` on, in code position. */
  function Todo(line: string, i: nat, st: Style, scrub: string -> string): string
    requires i <= |line|
  {
    Flat(Mapped(Lex(line[i..], InCode, st).tokens, scrub))
  }

  function CarryFrom(line: string, i: nat, st: Style): Carry
    requires i <= |line|
  {
    Lex(line[i..], InCode, st).carry
  }

  /** Taking one token off the front. */
  lemma Advance(line: string, i: nat, j: nat, t: Token, st: Style, scrub: string -> string)
    requires i <= j <= |line| && line[i..] == TextOf(t) + line[j..] && TokenOk(t, line[j..], st)
    ensures IsTail(t) ==> Todo(line, i, st, scrub) == TextOf(MapToken(t, scrub)) && CarryFrom(line, i, st) == t.next
    ensures !IsTail(t) ==>
              && Todo(line, i, st, scrub) == TextOf(MapToken(t, scrub)) + Todo(line, j, st, scrub)
              && CarryFrom(line, i, st) == CarryFrom(line, j, st)
  {
    hide Lex, TokenOk, TextOf;
    TokenLexed(t, line[j..], st);
    if IsTail(t) {
      assert Mapped([t], scrub) == [MapToken(t, scrub)];
      assert Flat([MapToken(t, scrub)]) == TextOf(MapToken(t, scrub)) + "";
    } else {
      MappedCons(t, Lex(line[j..], InCode, st), scrub);
    }
  }

  lemma MappedCons(t: Token, r: Lexed, scrub: string -> string)
    ensures Flat(Mapped(Cons(t, r).tokens, scrub)) == TextOf(MapToken(t, scrub)) + Flat(Mapped(r.tokens, scrub))
  {
    assert Cons(t, r).tokens[1..] == r.tokens;
    var us := Mapped(Cons(t, r).tokens, scrub);
    assert us[1..] == Mapped(r.tokens, scrub);
  }

  /** The result of one step of the scan: the text to append and where to go on. */
  datatype Step = Step(piece: string, at: nat, stop: bool, next: Carry)

  /** `r` is a correct step at `i`: it emits the rewritten text of one token. */
  predicate StepOk(line: string, i: nat, st: Style, scrub: string -> string, r: Step)
    requires i < |line|
  {
    && i < r.at <= |line|
    && (r.stop ==> Todo(line, i, st, scrub) == r.piece && CarryFrom(line, i, st) == r.next)
    && (!r.stop ==>
          && Todo(line, i, st, scrub) == r.piece + Todo(line, r.at, st, scrub)
          && CarryFrom(line, i, st) == CarryFrom(line, r.at, st))
  }

  /** Emitting a token that runs to the end of the line. */
  lemma TailStep(line: string, i: nat, t: Token, st: Style, scrub: string -> string, r: Step)
    requires i < |line| && IsTail(t) && line[i..] == TextOf(t) && TokenOk(t, "", st)
    requires r == Step(TextOf(MapToken(t, scrub)), |line|, true, t.next)
    ensures StepOk(line, i, st, scrub, r)
  {
    hide Todo, CarryFrom, TokenOk, TextOf, MapToken;
    assert line[|line|..] == "" && TextOf(t) + "" == TextOf(t);
    Advance(line, i, |line|, t, st, scrub);
  }

  /** Emitting a token that ends before `j`. */
  lemma TokenStep(line: string, i: nat, j: nat, t: Token, st: Style, scrub: string -> string, r: Step)
    requires i < j <= |line| && !IsTail(t) && line[i..] == TextOf(t) + line[j..] && TokenOk(t, line[j..], st)
    requires r == Step(TextOf(MapToken(t, scrub)), j, false, Plain)
    ensures StepOk(line, i, st, scrub, r)
  {
    hide Todo, CarryFrom, TokenOk, TextOf, MapToken;
    Advance(line, i, j, t, st, scrub);
  }

  /** The marks and the carried state of a block comment or triple-quoted string. */
  predicate Marks(open: string, close: string, next: Carry, st: Style) {
    if st.Hash? then IsTripleMark(open) && close == open && next == InTriple(open[0])
    else open == "/*" && close == "*/" && next == InBlock
  }

  /** A comment or string with distinct marks: block comments and triple-quoted strings. */
  method DelimitedStep(line: string, i: nat, open: string, close: string, next: Carry, st: Style, scrub: string -> string)
    returns (r: Step)
    requires Marks(open, close, next, st) && i + |open| <= |line| && line[i..i + |open|] == open
    ensures StepOk(line, i, st, scrub, r)
  {
    hide StepOk, ScrubbedOk, ScrubbedTailOk, Marks, Find, At;
    var k := i + |open|;
    var end := Find(line, close, k);
    if end < 0 {
      DelimitedOpen(line, i, open, close, next, st);
      r := Step(open + scrub(line[k..]), |line|, true, next);
      TailStep(line, i, ScrubbedTail(open, line[k..], next), st, scrub, r);
      return;
    }
    DelimitedFound(line, i, open, close, next, st);
    var body, to := line[k..end], end + |close|;
    r := Step(open + scrub(body) + close, to, false, Plain);
    TokenStep(line, i, to, Scrubbed(open, body, close), st, scrub, r);
  }

  lemma DelimitedOpen(line: string, i: nat, open: string, close: string, next: Carry, st: Style)
    requires Marks(open, close, next, st) && i + |open| <= |line| && line[i..i + |open|] == open
    requires Find(line, close, i + |open|) < 0
    ensures i < |line| && line[i..] == open + line[i + |open|..] && ScrubbedTailOk(open, line[i + |open|..], next, st)
  {
    hide NoClose, Find, At;
    FoundBody(line, close, i + |open|);
    assert line[i..] == open + line[i + |open|..];
    if st.Hash? {
      assert NoClose(line[i + |open|..], open);
    } else {
      assert NoClose(line[i + |open|..], "*/");
    }
  }

  lemma DelimitedFound(line: string, i: nat, open: string, close: string, next: Carry, st: Style)
    requires Marks(open, close, next, st) && i + |open| <= |line| && line[i..i + |open|] == open
    requires Find(line, close, i + |open|) >= 0
    ensures var k, end := i + |open|, Find(line, close, i + |open|);
            && k <= end && i < end + |close| <= |line|
            && line[i..] == open + line[k..end] + close + line[end + |close|..]
            && ScrubbedOk(open, line[k..end], close, line[end + |close|..], st)
  {
    hide FirstClose, Find, At;
    var k, end := i + |open|, Find(line, close, i + |open|);
    FoundBody(line, close, k);
    assert line[i..] == open + line[k..];
    ConcatThree(open, line[k..end], close, line[end + |close|..]);
  }

  lemma ConcatThree(a: string, b: string, c: string, d: string)
    ensures a + (b + c + d) == a + b + c + d
  {
  }

  method LineCommentStep(line: string, i: nat, st: Style, scrub: string -> string) returns (r: Step)
    requires i < |line| && st.LineMark() <= line[i..]
    ensures StepOk(line, i, st, scrub, r)
  {
    hide StepOk, NoClose;
    var lc := st.LineMark();
    assert line[i..] == lc + line[i + |lc|..];
    r := Step(lc + scrub(line[i + |lc|..]), |line|, true, Plain);
    TailStep(line, i, ScrubbedTail(lc, line[i + |lc|..], Plain), st, scrub, r);
  }

  method RawStep(line: string, i: nat, scrub: string -> string) returns (r: Step)
    requires i < |line| && line[i] == '`'
    ensures StepOk(line, i, Slashes, scrub, r)
  {
    hide StepOk, CopiedOk, CopiedTailOk, IsTriple, CloseAt, Find, At;
    var end := Find(line, "`", i + 1);
    FoundRaw(line, i);
    if end < 0 {
      r := Step(line[i..], |line|, true, InRaw);
      TailStep(line, i, CopiedTail(line[i..], InRaw), Slashes, scrub, r);
      return;
    }
    r := Step(line[i..end + 1], end + 1, false, Plain);
    TokenStep(line, i, end + 1, Copied(line[i..end + 1]), Slashes, scrub, r);
  }

  /** A search for the next backquote delimits a raw string. */
  lemma FoundRaw(line: string, i: nat)
    requires i < |line| && line[i] == '`'
    ensures var e := Find(line, "`", i + 1);
            && (e >= 0 ==> i < e < |line| && CopiedOk(line[i..e + 1], Slashes)
                           && line[i..] == line[i..e + 1] + line[e + 1..])
            && (e < 0 ==> CopiedTailOk(line[i..], InRaw, Slashes))
  {
    var e := Find(line, "`", i + 1);
    var to := if e < 0 then |line| else e;
    forall k | i < k < to ensures line[k] != '`' {
      assert !At(line, "`", k);
      assert line[k..k + 1] == [line[k]];
    }
    if e >= 0 {
      assert line[e..e + 1] == [line[e]];
      var text := line[i..e + 1];
      SliceOfSlice(line, i, e + 1, 1, e - i);
    } else {
      assert line[i..][1..] == line[i + 1..];
    }
  }

  method QuoteStep(line: string, i: nat, st: Style, scrub: string -> string) returns (r: Step)
    requires i < |line| && IsQuote(line[i]) && (st.Hash? ==> !IsTriple(line[i..]))
    ensures StepOk(line, i, st, scrub, r)
  {
    hide StepOk, CopiedOk, CopiedTailOk, ScrubbedOk, IsTriple, CloseFrom, CloseAt;
    var q := line[i];
    var j := ScanQuote(line, i, q);
    if j < 0 {
      QuoteMissing(line, i, st);
      r := Step(line[i..], |line|, true, Plain);
      TailStep(line, i, CopiedTail(line[i..], Plain), st, scrub, r);
      return;
    }
    QuoteFound(line, i, j, st);
    if q == '"' || st.Hash? {
      r := Step([q] + scrub(line[i + 1..j]) + [q], j + 1, false, Plain);
      TokenStep(line, i, j + 1, Scrubbed([q], line[i + 1..j], [q]), st, scrub, r);
      return;
    }
    r := Step(line[i..j + 1], j + 1, false, Plain);
    TokenStep(line, i, j + 1, Copied(line[i..j + 1]), st, scrub, r);
  }

  lemma QuoteMissing(line: string, i: nat, st: Style)
    requires i < |line| && IsQuote(line[i]) && (st.Hash? ==> !IsTriple(line[i..]))
    requires CloseFrom(line, i + 1, line[i]).None?
    ensures CopiedTailOk(line[i..], Plain, st)
  {
    assert line[i..][1..] == line[i + 1..];
  }

  lemma QuoteFound(line: string, i: nat, j: nat, st: Style)
    requires i < |line| && IsQuote(line[i]) && (st.Hash? ==> !IsTriple(line[i..]))
    requires CloseFrom(line, i + 1, line[i]) == Some(j)
    ensures i < j < |line| && line[i..] == [line[i]] + line[i + 1..j] + [line[i]] + line[j + 1..]
    ensures line[i..] == line[i..j + 1] + line[j + 1..]
    ensures if line[i] == '"' || st.Hash? then ScrubbedOk([line[i]], line[i + 1..j], [line[i]], line[j + 1..], st)
            else CopiedOk(line[i..j + 1], st)
  {
    hide IsTriple, FirstClose;
    var q := line[i];
    CloseAtBody(line[i + 1..], q, j - i - 1);
    assert line[i + 1..][..j - i - 1] == line[i + 1..j];
    assert line[i..] == [q] + line[i + 1..j] + [q] + line[j + 1..];
    var text := line[i..j + 1];
    SliceOfSlice(line, i, j + 1, 1, j - i);
  }

  /** One pass of the scan loop. */
  method ScanStep(line: string, i: nat, st: Style, scrub: string -> string) returns (r: Step)
    requires i < |line|
    ensures StepOk(line, i, st, scrub, r)
  {
    hide Todo, CarryFrom, StepOk;
    var s := line[i..];
    assert forall k :: 0 <= k <= |line| - i ==> s[..k] == line[i..i + k];
    if st.Hash? && IsTriple(s) {
      r := DelimitedStep(line, i, s[..3], s[..3], InTriple(s[0]), st, scrub);
    } else if st.LineMark() <= s {
      r := LineCommentStep(line, i, st, scrub);
    } else if st.Slashes? && "/*" <= s {
      r := DelimitedStep(line, i, "/*", "*/", InBlock, st, scrub);
    } else if st.Slashes? && line[i] == '`' {
      r := RawStep(line, i, scrub);
    } else if IsQuote(line[i]) {
      r := QuoteStep(line, i, st, scrub);
    } else {
      CodeStep(line, i, st, scrub);
      r := Step([line[i]], i + 1, false, Plain);
    }
  }

  lemma CodeStep(line: string, i: nat, st: Style, scrub: string -> string)
    requires i < |line| && !Opens(line[i..], st)
    ensures StepOk(line, i, st, scrub, Step([line[i]], i + 1, false, Plain))
  {
    hide StepOk;
    assert line[i..] == [line[i]] + line[i + 1..];
    TokenStep(line, i, i + 1, Code(line[i]), st, scrub, Step([line[i]], i + 1, false, Plain));
  }

  /** `r` finishes what an earlier line left open. */
  predicate LeadStepOk(line: string, carry: Carry, st: Style, scrub: string -> string, r: Step) {
    && r.at <= |line|
    && (r.stop ==> Rewritten(line, carry, st, scrub) == r.piece && LexLine(line, carry, st).carry == r.next)
    && (!r.stop ==>
          && Rewritten(line, carry, st, scrub) == r.piece + Todo(line, r.at, st, scrub)
          && LexLine(line, carry, st).carry == CarryFrom(line, r.at, st))
  }

  lemma LeadAdvance(line: string, carry: Carry, st: Style, scrub: string -> string, t: Token, r: Step)
    requires LeadOk(t, carry) && r.at <= |line| && line == TextOf(t) + line[r.at..] && (IsTail(t) ==> r.at == |line|)
    requires r.piece == TextOf(MapToken(t, scrub)) && r.stop == IsTail(t) && (r.stop ==> r.next == t.next)
    ensures LeadStepOk(line, carry, st, scrub, r)
  {
    hide Lex, LexLine, LeadOk, TextOf;
    LeadLexed(t, line[r.at..], carry, st);
    if IsTail(t) {
      assert Mapped([t], scrub) == [MapToken(t, scrub)];
      assert Flat([MapToken(t, scrub)]) == TextOf(MapToken(t, scrub)) + "";
    } else {
      MappedCons(t, Lex(line[r.at..], InCode, st), scrub);
    }
  }

  /** Continues a block comment or triple-quoted string, scrubbing its body. */
  method LeadBody(line: string, carry: Carry, st: Style, scrub: string -> string) returns (r: Step)
    requires carry.InBlock? || carry.InTriple?
    ensures LeadStepOk(line, carry, st, scrub, r)
  {
    hide LeadStepOk, FirstClose, NoClose, Find, At;
    var close := CloseMark(carry);
    var end := Find(line, close, 0);
    FoundBody(line, close, 0);
    assert line[0..] == line;
    if end < 0 {
      r := Step(scrub(line), |line|, true, carry);
      assert "" + line == line && line == line + line[|line|..] && "" + scrub(line) == scrub(line);
      LeadAdvance(line, carry, st, scrub, ScrubbedTail("", line, carry), r);
    } else {
      var b := line[..end];
      r := Step(scrub(b) + close, end + |close|, false, Plain);
      assert line[0..end] == b && "" + b == b && "" + scrub(b) == scrub(b);
      LeadAdvance(line, carry, st, scrub, Scrubbed("", b, close), r);
    }
  }

  /** Continues a raw string, copying it. */
  method LeadRaw(line: string, st: Style, scrub: string -> string) returns (r: Step)
    ensures LeadStepOk(line, InRaw, st, scrub, r)
  {
    hide LeadStepOk, Find, At;
    var end := Find(line, "`", 0);
    FoundBackquote(line);
    if end < 0 {
      r := Step(line, |line|, true, InRaw);
      assert line == line + line[|line|..];
      LeadAdvance(line, InRaw, st, scrub, CopiedTail(line, InRaw), r);
    } else {
      var text := line[..end + 1];
      r := Step(text, end + 1, false, Plain);
      assert text[..|text| - 1] == line[..end];
      LeadAdvance(line, InRaw, st, scrub, Copied(text), r);
    }
  }

  lemma FoundBackquote(line: string)
    ensures var e := Find(line, "`", 0);
            && (e >= 0 ==> e < |line| && line[e] == '`' && '`' !in line[..e])
            && (e < 0 ==> '`' !in line)
  {
    var e := Find(line, "`", 0);
    var to := if e < 0 then |line| else e;
    forall k | 0 <= k < to ensures line[k] != '`' {
      assert !At(line, "`", k);
      assert line[k..k + 1] == [line[k]];
    }
    if e >= 0 { assert line[e..e + 1] == [line[e]]; }
  }

  /** The line rewriter: its output and the state it carries on are those of the automaton. */
  method RewriteLine(line: string, state: Carry, st: Style, scrub: string -> string) returns (r: string, next: Carry)
    ensures r == Rewritten(line, state, st, scrub)
    ensures next == LexLine(line, state, st).carry
  {
    hide Rewritten, LexLine, Todo, CarryFrom;
    var out, i := "", 0;
    if state.Plain? {
      StartInCode(line, st, scrub);
    } else {
      var lead;
      if state.InRaw? { lead := LeadRaw(line, st, scrub); } else { lead := LeadBody(line, state, st, scrub); }
      if lead.stop {
        return lead.piece, lead.next;
      }
      out, i := lead.piece, lead.at;
    }
    while i < |line|
      invariant i <= |line|
      invariant out + Todo(line, i, st, scrub) == Rewritten(line, state, st, scrub)
      invariant CarryFrom(line, i, st) == LexLine(line, state, st).carry
    {
      var step := ScanStep(line, i, st, scrub);
      if step.stop {
        return out + step.piece, step.next;
      }
      ConcatAssoc(out, step.piece, Todo(line, step.at, st, scrub));
      out, i := out + step.piece, step.at;
    }
    NothingLeft(line, st, scrub);
    return out, Plain;
  }

  lemma StartInCode(line: string, st: Style, scrub: string -> string)
    ensures "" + Todo(line, 0, st, scrub) == Rewritten(line, Plain, st, scrub)
    ensures CarryFrom(line, 0, st) == LexLine(line, Plain, st).carry
  {
    hide Lex;
    assert line[0..] == line;
  }

  lemma NothingLeft(line: string, st: Style, scrub: string -> string)
    ensures Todo(line, |line|, st, scrub) == "" && CarryFrom(line, |line|, st) == Plain
  {
    assert line[|line|..] == "";
  }
}
