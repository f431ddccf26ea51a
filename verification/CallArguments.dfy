/**
 Splitting a call's arguments at top-level commas, and the last of these commas
 (functions `split_args` and `_last_top_level_comma` of
 scripts/check_conv_pool_identity.py).
 */
module CallArguments {
  import opened Text
  import opened Brackets

  /** Whitespace in the sense of Python's str.strip. */
  predicate PySpace(c: char) {
    var u := c as int;
    || 0x09 <= u <= 0x0D || 0x1C <= u <= 0x20 || u == 0x85 || u == 0xA0 || u == 0x1680
    || 0x2000 <= u <= 0x200A || u == 0x2028 || u == 0x2029 || u == 0x202F || u == 0x205F || u == 0x3000
  }

  /** The characters for which Python's str.isspace holds. */
  const BLANKS: seq<char> := [
    '\t', '\n', '\U{0B}', '\U{0C}', '\r', '\U{1C}', '\U{1D}', '\U{1E}', '\U{1F}', ' ',
    '\U{85}', '\U{A0}', '\U{1680}', '\U{2000}', '\U{2001}', '\U{2002}', '\U{2003}', '\U{2004}', '\U{2005}', '\U{2006}',
    '\U{2007}', '\U{2008}', '\U{2009}', '\U{200A}', '\U{2028}', '\U{2029}', '\U{202F}', '\U{205F}', '\U{3000}']

  lemma PySpaceExactly(c: char)
    ensures PySpace(c) <==> c in BLANKS
  {
  }

  function Strip(s: string): string {
    Trim(s, PySpace)
  }

  /** What a character adds to the depth of brackets of any kind. */
  function Bracket(c: char): int {
    if c in "([{" then 1 else if c in ")]}" then -1 else 0
  }

  /** The reader: `depth` is the depth so far and `cur` the argument read so far. */
  function SplitFrom(s: string, depth: int, cur: string): (parts: seq<string>)
    ensures |parts| > 0
    decreases |s|
  {
    if s == "" then [cur]
    else
      var d := depth + Bracket(s[0]);
      if s[0] == ',' && d == 0 then [cur] + SplitFrom(s[1..], d, "")
      else SplitFrom(s[1..], d, cur + [s[0]])
  }

  /** The arguments as written, with their surrounding blanks. */
  function RawSplit(args: string): (parts: seq<string>)
    ensures |parts| > 0
  {
    SplitFrom(args, 0, "")
  }

  function StripAll(parts: seq<string>): (r: seq<string>)
    ensures |r| == |parts| && forall i :: 0 <= i < |parts| ==> r[i] == Strip(parts[i])
  {
    seq(|parts|, i requires 0 <= i < |parts| => Strip(parts[i]))
  }

  /** One blank argument is no argument. */
  function Cleaned(raw: seq<string>): seq<string> {
    if |raw| == 1 && Strip(raw[0]) == "" then [] else StripAll(raw)
  }

  /** `s` has no comma at depth 0. */
  ghost predicate NoTopComma(s: string) {
    forall k :: 0 <= k < |s| && s[k] == ',' ==> Net(s[..k], Bracket) != 0
  }

  /** A list that comma-joining and splitting respect: each argument closes its brackets. */
  ghost predicate WellFormed(parts: seq<string>) {
    && |parts| > 0
    && (forall i :: 0 <= i < |parts| ==> NoTopComma(parts[i]))
    && (forall i :: 0 <= i < |parts| - 1 ==> Net(parts[i], Bracket) == 0)
  }

  /** Reading through a stretch without a splitting comma. */
  lemma {:induction false} ReadThrough(p: string, s: string, depth: int, cur: string)
    requires forall k :: 0 <= k < |p| && p[k] == ',' ==> depth + Net(p[..k], Bracket) != 0
    ensures SplitFrom(p + s, depth, cur) == SplitFrom(s, depth + Net(p, Bracket), cur + p)
  {
    if p == "" {
      assert p + s == s && cur + p == cur;
    } else {
      assert (p + s)[1..] == p[1..] + s && cur + [p[0]] + p[1..] == cur + p;
      var d := depth + Bracket(p[0]);
      forall k | 0 <= k < |p| - 1 && p[1..][k] == ',' ensures d + Net(p[1..][..k], Bracket) != 0 {
        assert p[..k + 1][1..] == p[1..][..k];
        assert p[k + 1] == ',';
      }
      assert p[0] == ',' ==> depth + Net(p[..0], Bracket) != 0;
      ReadThrough(p[1..], s, d, cur + [p[0]]);
    }
  }

  lemma SplitOne(p: string)
    requires NoTopComma(p)
    ensures RawSplit(p) == [p]
  {
    ReadThrough(p, "", 0, "");
    assert p + "" == p && "" + p == p;
  }

  /** A top-level comma cuts the list in two. */
  lemma {:induction false} SplitAtComma(a: string, b: string, depth: int, cur: string)
    requires depth + Net(a, Bracket) == 0
    ensures SplitFrom(a + "," + b, depth, cur) == SplitFrom(a, depth, cur) + RawSplit(b)
    decreases |a|
  {
    var s := a + "," + b;
    if a == "" {
      assert s[1..] == b;
    } else {
      assert s[1..] == a[1..] + "," + b;
      var d := depth + Bracket(a[0]);
      if a[0] == ',' && d == 0 {
        SplitAtComma(a[1..], b, d, "");
      } else {
        SplitAtComma(a[1..], b, d, cur + [a[0]]);
      }
    }
  }

  /** Splitting undoes joining: a well-formed list comes back as it was written. */
  lemma {:induction false} SplitOfJoined(parts: seq<string>)
    requires WellFormed(parts)
    ensures RawSplit(Join(parts, ',')) == parts
  {
    SplitOne(parts[0]);
    if |parts| > 1 {
      SplitOfJoined(parts[1..]);
      SplitAtComma(parts[0], Join(parts[1..], ','), 0, "");
    }
  }

  /** Joining undoes splitting, and the result is well formed: so it is the only such list. */
  lemma {:induction false} JoinOfRaw(s: string, depth: int, cur: string)
    requires Net(cur, Bracket) == depth && NoTopComma(cur)
    ensures Join(SplitFrom(s, depth, cur), ',') == cur + s
    ensures WellFormed(SplitFrom(s, depth, cur))
    decreases |s|
  {
    hide NoTopComma, Net;
    var parts := SplitFrom(s, depth, cur);
    if s == "" {
      assert cur + s == cur;
    } else {
      var d := depth + Bracket(s[0]);
      if s[0] == ',' && d == 0 {
        EmptyArgument();
        JoinOfRaw(s[1..], 0, "");
        assert parts[1..] == SplitFrom(s[1..], 0, "");
        WellFormedCons(cur, parts[1..]);
        assert cur + [','] + s[1..] == cur + s && "" + s[1..] == s[1..];
      } else {
        LongerNoComma(cur, s[0]);
        JoinOfRaw(s[1..], d, cur + [s[0]]);
        assert cur + [s[0]] + s[1..] == cur + s;
      }
    }
  }

  lemma EmptyArgument()
    ensures NoTopComma("") && Net("", Bracket) == 0
  {
  }

  lemma WellFormedCons(p: string, rest: seq<string>)
    requires NoTopComma(p) && Net(p, Bracket) == 0 && WellFormed(rest)
    ensures WellFormed([p] + rest)
  {
    hide NoTopComma, Net;
  }

  lemma LongerNoComma(cur: string, c: char)
    requires NoTopComma(cur) && (c == ',' ==> Net(cur, Bracket) != 0)
    ensures NoTopComma(cur + [c]) && Net(cur + [c], Bracket) == Net(cur, Bracket) + Bracket(c)
  {
    NetConcat(cur, [c], Bracket);
    var t := cur + [c];
    forall k | 0 <= k < |t| && t[k] == ',' ensures Net(t[..k], Bracket) != 0 {
      assert t[..k] == cur[..k];
      if k == |cur| { assert cur[..k] == cur; }
    }
  }

  /** The raw split is the one well-formed list that joins to the text. */
  lemma RawSplitUnique(args: string, parts: seq<string>)
    ensures RawSplit(args) == parts <==> WellFormed(parts) && Join(parts, ',') == args
  {
    hide SplitFrom;
    JoinOfRaw(args, 0, "");
    assert "" + args == args;
    if WellFormed(parts) && Join(parts, ',') == args {
      SplitOfJoined(parts);
    }
  }

  /** The splitting loop. */
  method SplitArgs(args: string) returns (parts: seq<string>)
    ensures parts == Cleaned(RawSplit(args))
  {
    hide SplitFrom, Strip;
    var depth, current := 0, "";
    parts := [];
    ghost var raw := [];
    assert args[0..] == args;
    for i := 0 to |args|
      invariant raw + SplitFrom(args[i..], depth, current) == RawSplit(args)
      invariant parts == StripAll(raw)
    {
      SplitStep(args, i, depth, current);
      var c := args[i];
      if c in "([{" {
        depth := depth + 1;
      } else if c in ")]}" {
        depth := depth - 1;
      }
      if c == ',' && depth == 0 {
        StripMore(raw, current);
        ghost var rest := SplitFrom(args[i + 1..], depth, "");
        ConcatAssoc(raw, [current], rest);
        parts := parts + [Strip(current)];
        raw := raw + [current];
        current := "";
      } else {
        current := current + [c];
      }
    }
    SplitEnd(args, depth, current);
    StripMore(raw, current);
    var tail := Strip(current);
    if tail != "" || parts != [] {
      parts := parts + [tail];
    }
  }

  lemma SplitStep(args: string, i: nat, depth: int, cur: string)
    requires i < |args|
    ensures var d := depth + Bracket(args[i]);
            SplitFrom(args[i..], depth, cur) ==
            if args[i] == ',' && d == 0 then [cur] + SplitFrom(args[i + 1..], d, "")
            else SplitFrom(args[i + 1..], d, cur + [args[i]])
  {
    assert args[i..][1..] == args[i + 1..];
  }

  lemma SplitEnd(args: string, depth: int, cur: string)
    ensures SplitFrom(args[|args|..], depth, cur) == [cur]
  {
  }

  lemma StripMore(raw: seq<string>, p: string)
    ensures StripAll(raw + [p]) == StripAll(raw) + [Strip(p)]
  {
    hide Strip;
  }

  /** Arguments joined with commas split back into the same arguments, stripped. */
  lemma SplitArgsUndoesJoin(parts: seq<string>)
    requires WellFormed(parts) && (|parts| == 1 ==> Strip(parts[0]) != "")
    ensures Cleaned(RawSplit(Join(parts, ','))) == StripAll(parts)
  {
    SplitOfJoined(parts);
  }

  // ----- The last top-level comma

  ghost predicate TopComma(text: string, start: nat, k: nat) {
    start <= k < |text| && text[k] == ',' && Net(text[start..k], Bracket) == 0
  }

  /** `c` is the last top-level comma of `text[start..end]`. */
  ghost predicate LastComma(text: string, start: nat, end: nat, c: nat) {
    start <= c < end <= |text| && TopComma(text, start, c) && forall k: nat :: c < k < end ==> !TopComma(text, start, k)
  }

  /** Offset of the last top-level comma of `text[start..end]`, or -1. */
  method LastTopLevelComma(text: string, start: nat, end: nat) returns (found: int)
    requires start <= end <= |text|
    ensures found >= 0 ==> LastComma(text, start, end, found)
    ensures found < 0 ==> found == -1 && forall k: nat :: k < end ==> !TopComma(text, start, k)
  {
    hide Net;
    var depth := 0;
    found := -1;
    NetStart(text, start);
    for i := start to end
      invariant depth == Net(text[start..i], Bracket)
      invariant -1 <= found < i
      invariant found >= 0 ==> TopComma(text, start, found)
      invariant forall k: nat :: k < i && found < k ==> !TopComma(text, start, k)
    {
      NetExtend(text, start, i, Bracket);
      if text[i] in "([{" {
        depth := depth + 1;
      } else if text[i] in ")]}" {
        depth := depth - 1;
      } else if text[i] == ',' && depth == 0 {
        found := i;
      }
    }
  }

  lemma NetStart(text: string, start: nat)
    requires start <= |text|
    ensures Net(text[start..start], Bracket) == 0
  {
  }

  /** A comma of the file is a comma of the argument text cut out of it. */
  lemma TopCommaSlice(text: string, start: nat, end: nat, k: nat)
    requires start <= end <= |text|
    ensures start <= k < end ==> (TopComma(text, start, k) <==> TopComma(text[start..end], 0, k - start))
  {
    if start <= k < end { SliceOfSlice(text, start, end, 0, k - start); }
  }

  lemma LastCommaSlice(text: string, start: nat, end: nat, c: nat)
    requires start <= end <= |text| && LastComma(text, start, end, c)
    ensures start <= c < end && LastComma(text[start..end], 0, end - start, c - start)
  {
    hide TopComma;
    TopCommaSlice(text, start, end, c);
    forall k: nat | c - start < k < end - start ensures !TopComma(text[start..end], 0, k) {
      TopCommaSlice(text, start, end, start + k);
    }
  }

  /** After the last top-level comma comes the last argument, before it the others. */
  lemma CutLastArgument(text: string, start: nat, end: nat, c: nat)
    requires start <= end <= |text| && LastComma(text, start, end, c)
    ensures RawSplit(text[start..end]) == RawSplit(text[start..c]) + [text[c + 1..end]]
  {
    hide LastComma, SplitFrom;
    LastCommaSlice(text, start, end, c);
    CutArguments(text[start..end], c - start);
    SliceOfSlice(text, start, end, 0, c - start);
    SliceOfSlice(text, start, end, c + 1 - start, end - start);
  }

  lemma CutArguments(args: string, c: nat)
    requires LastComma(args, 0, |args|, c)
    ensures RawSplit(args) == RawSplit(args[0..c]) + [args[c + 1..|args|]]
  {
    hide SplitFrom;
    var a, b := args[..c], args[c + 1..];
    assert args == a + "," + b && args[0..c] == a && args[c + 1..|args|] == b;
    SplitAtComma(a, b, 0, "");
    forall k | 0 <= k < |b| && b[k] == ',' ensures Net(b[..k], Bracket) != 0 {
      assert !TopComma(args, 0, c + 1 + k);
      assert args[0..c + 1 + k] == a + "," + b[..k];
      NetConcat(a + ",", b[..k], Bracket);
      NetConcat(a, ",", Bracket);
      assert Net(",", Bracket) == 0;
    }
    SplitOne(b);
  }

  /** There is no top-level comma exactly when there is one argument. */
  lemma NoCommaOneArgument(text: string, start: nat, end: nat)
    requires start <= end <= |text|
    ensures (forall k: nat :: k < end ==> !TopComma(text, start, k)) <==> |RawSplit(text[start..end])| == 1
  {
    hide SplitFrom;
    var args := text[start..end];
    if forall k: nat :: k < end ==> !TopComma(text, start, k) {
      forall k | 0 <= k < |args| && args[k] == ',' ensures Net(args[..k], Bracket) != 0 {
        TopCommaSlice(text, start, end, start + k);
        assert !TopComma(text, start, start + k);
        assert args[0..k] == args[..k];
      }
      SplitOne(args);
    } else {
      var j: nat :| j < end && TopComma(text, start, j);
      TopCommaSlice(text, start, end, j);
      var k := j - start;
      assert args == args[..k] + "," + args[k + 1..] && args[0..k] == args[..k];
      SplitAtComma(args[..k], args[k + 1..], 0, "");
    }
  }

  /**
   Cutting at the last top-level comma removes exactly the last argument, unless what
   is left is one blank argument, which counts as none.
   */
  lemma CutRemovesLast(text: string, start: nat, end: nat, c: nat)
    requires start <= end <= |text| && LastComma(text, start, end, c)
    ensures var all, left := Cleaned(RawSplit(text[start..end])), RawSplit(text[start..c]);
            && |all| >= 2
            && (Cleaned(left) == all[..|all| - 1] <==> !(|left| == 1 && Strip(left[0]) == ""))
  {
    hide SplitFrom, Strip;
    CutLastArgument(text, start, end, c);
    var left := RawSplit(text[start..c]);
    StripMore(left, text[c + 1..end]);
  }

  lemma BalancedPrefix(s: string, k: nat)
    requires Balanced(s) && k <= |s|
    ensures Balanced(s[..k]) <==> Net(s[..k], Paren) == 0
  {
    forall j | 0 <= j <= k ensures Net(s[..k][..j], Paren) >= 0 {
      assert s[..k][..j] == s[..j];
    }
  }

  /**
   Cutting a call from its last top-level comma to its closing parenthesis leaves a call
   with the arguments before the comma, exactly when these close their parentheses.
   */
  lemma CutCall(text: string, open: nat, close: nat, c: nat)
    requires open < |text| && text[open] == '(' && ClosesAt(text, open, close)
    requires LastComma(text, open + 1, close, c)
    ensures var cut := text[..c] + text[close..];
            && (ClosesAt(cut, open, c) <==> Net(text[open + 1..c], Paren) == 0)
            && cut[open + 1..c] == text[open + 1..c]
  {
    hide Net, ClosesAt, Balanced;
    var cut := text[..c] + text[close..];
    ClosesBalanced(text, open, close);
    ClosesBalanced(cut, open, c);
    BalancedPrefix(text[open + 1..close], c - open - 1);
    SliceOfSlice(text, open + 1, close, 0, c - open - 1);
    assert cut[open + 1..c] == text[open + 1..c];
  }
}
