/**
 Finding where comments and literals end: closing marks, and quotes that a backslash
 can escape. Shared by the source rewriter and the C masker.
 */
module Scanning {
  import opened Text

  predicate IsQuote(c: char) {
    c == '"' || c == '\''
  }

  /** Offset of the first `q` in `s` that no backslash escapes. */
  function CloseAt(s: string, q: char): (r: Option<nat>)
    ensures r.Some? ==> r.value < |s| && s[r.value] == q
  {
    if s == "" then None
    else if s[0] == '\\' then
      if |s| == 1 then None else Later(CloseAt(s[2..], q), 2)
    else if s[0] == q then Some(0)
    else Later(CloseAt(s[1..], q), 1)
  }

  function Later(r: Option<nat>, k: nat): Option<nat> {
    if r.None? then None else Some(r.value + k)
  }

  /** The first occurrence of `close` in `b + close` is at the end. */
  ghost predicate FirstClose(b: string, close: string) {
    forall i: nat :: i < |b| ==> !At(b + close, close, i)
  }

  ghost predicate NoClose(b: string, close: string) {
    forall i: nat :: !At(b, close, i)
  }

  /** Ordinary characters and escape pairs, no closing quote. */
  predicate QuotedBody(b: string, q: char) {
    if b == "" then true
    else if b[0] == '\\' then |b| > 1 && QuotedBody(b[2..], q)
    else b[0] != q && QuotedBody(b[1..], q)
  }

  lemma NotAtStart(b: string, close: string, rest: string)
    requires b != "" && FirstClose(b, close)
    ensures !(close <= b + close + rest)
  {
    assert !At(b + close, close, 0);
    assert (b + close + rest)[..|close|] == (b + close)[..|close|];
  }

  lemma ShorterFirstClose(b: string, close: string)
    requires b != "" && FirstClose(b, close)
    ensures FirstClose(b[1..], close)
  {
    assert (b + close)[1..] == b[1..] + close;
    forall i: nat | i < |b| - 1 ensures !At(b[1..] + close, close, i) {
      AtTail(b + close, close, i);
    }
  }

  lemma ShorterNoClose(b: string, close: string)
    requires b != "" && NoClose(b, close)
    ensures NoClose(b[1..], close)
  {
    forall i: nat ensures !At(b[1..], close, i) {
      AtTail(b, close, i);
    }
  }

  /** A quoted body closes at the first unescaped quote, and that is its end. */
  lemma {:induction false} CloseAtBody(s: string, q: char, e: nat)
    requires IsQuote(q)
    ensures CloseAt(s, q) == Some(e) <==> e < |s| && s[e] == q && QuotedBody(s[..e], q)
  {
    if s == "" {
    } else if s[0] == '\\' {
      if |s| > 1 && e >= 2 {
        CloseAtBody(s[2..], q, e - 2);
        if e < |s| { assert s[..e][2..] == s[2..][..e - 2]; }
      }
    } else if s[0] != q && e >= 1 {
      CloseAtBody(s[1..], q, e - 1);
      if e < |s| { assert s[..e][1..] == s[1..][..e - 1]; }
    }
  }

  /** Cutting at the first closing mark, or finding that there is none. */
  lemma CutBody(s: string, close: string) returns (closed: bool, b: string, rest: string)
    requires close != ""
    ensures closed ==> s == b + close + rest && FirstClose(b, close)
    ensures !closed ==> b == s && NoClose(b, close)
  {
    var e := Find(s, close, 0);
    closed := e >= 0;
    if closed {
      b, rest := s[..e], s[e + |close|..];
      assert s == b + close + rest;
      forall i: nat | i < |b| ensures !At(b + close, close, i) {
        AtPrefix(b + close, rest, close, i);
      }
    } else {
      b, rest := s, "";
    }
  }

  lemma AtPrefix(a: string, rest: string, pat: string, i: nat)
    ensures At(a, pat, i) ==> At(a + rest, pat, i)
  {
    if i + |pat| <= |a| {
      assert (a + rest)[i..i + |pat|] == a[i..i + |pat|];
    }
  }

  /** Index of the first unescaped `q` at or after `j`. */
  function CloseFrom(line: string, j: nat, q: char): Option<nat> {
    if j > |line| then None else Later(CloseAt(line[j..], q), j)
  }

  lemma CloseStep(line: string, j: nat, q: char)
    ensures j >= |line| ==> CloseFrom(line, j, q).None?
    ensures j < |line| ==>
              CloseFrom(line, j, q) ==
              if line[j] == '\\' then CloseFrom(line, j + 2, q)
              else if line[j] == q then Some(j)
              else CloseFrom(line, j + 1, q)
  {
    if j < |line| {
      assert line[j..][1..] == line[j + 1..];
      if j + 2 <= |line| { assert line[j..][2..] == line[j + 2..]; }
    }
  }

  /** A search that starts at `from` cuts off the body up to the first closing mark. */
  lemma FoundBody(line: string, close: string, from: nat)
    requires close != "" && from <= |line|
    ensures var e := Find(line, close, from);
            && (e >= 0 ==> from <= e && e + |close| <= |line| && FirstClose(line[from..e], close)
                           && line[from..] == line[from..e] + close + line[e + |close|..])
            && (e < 0 ==> NoClose(line[from..], close))
  {
    var e := Find(line, close, from);
    if e >= 0 {
      var b := line[from..e];
      assert line[from..] == b + close + line[e + |close|..];
      forall k: nat | k < |b| ensures !At(b + close, close, k) {
        AtPrefix(b + close, line[e + |close|..], close, k);
        AtSuffix(line, close, from, k);
      }
    } else {
      forall k: nat ensures !At(line[from..], close, k) { AtSuffix(line, close, from, k); }
    }
  }

  lemma AtSuffix(s: string, pat: string, from: nat, k: nat)
    requires from <= |s|
    ensures At(s[from..], pat, k) ==> At(s, pat, from + k)
  {
    if from + k + |pat| <= |s| {
      assert s[from..][k..k + |pat|] == s[from + k..from + k + |pat|];
    }
  }

  // ----- Bodies in literal characters

  lemma NoStarClose(b: string)
    requires '*' !in b
    ensures FirstClose(b, "*/") && NoClose(b, "*/")
  {
    forall i: nat ensures !At(b, "*/", i) { assert i + 2 <= |b| ==> b[i..i + 2][0] in b; }
    forall i: nat | i < |b| ensures !At(b + "*/", "*/", i) {
      assert (b + "*/")[i] == b[i] && b[i] in b;
      assert i + 2 <= |b + "*/"| ==> (b + "*/")[i..i + 2][0] == b[i];
    }
  }

  /** Ordinary characters: no backslash and no closing quote. */
  predicate Ordinary(b: string, q: char) {
    forall c :: c in b ==> c != '\\' && c != q
  }

  lemma {:induction false} OrdinaryThen(b: string, r: string, q: char)
    requires Ordinary(b, q) && QuotedBody(r, q)
    ensures QuotedBody(b + r, q)
  {
    if b == "" {
      assert b + r == r;
    } else {
      assert (b + r)[1..] == b[1..] + r && b[0] in b;
      assert forall c :: c in b[1..] ==> c in b;
      OrdinaryThen(b[1..], r, q);
    }
  }

  lemma EscapedThen(x: char, r: string, q: char)
    requires QuotedBody(r, q)
    ensures QuotedBody(['\\', x] + r, q)
  {
    assert (['\\', x] + r)[2..] == r;
  }

  /** The text of a string in which a backslash hides any character `x`, also a quote. */
  lemma EscapedBody(b: string, x: char, c: string, q: char)
    requires Ordinary(b, q) && Ordinary(c, q)
    ensures QuotedBody(b + ['\\', x] + c, q) && QuotedBody(b, q)
  {
    hide QuotedBody;
    EmptyBody(q);
    OrdinaryThen(c, "", q);
    assert c + "" == c;
    EscapedThen(x, c, q);
    OrdinaryThen(b, ['\\', x] + c, q);
    ConcatAssoc(b, ['\\', x], c);
    OrdinaryThen(b, "", q);
    assert b + "" == b;
  }

  lemma EmptyBody(q: char)
    ensures QuotedBody("", q)
  {
  }
}
