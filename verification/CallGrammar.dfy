/**
 Arguments as nested text: parentheses, square brackets and braces that match. Splitting
 a call (`split_args` and `_last_top_level_comma` of
 scripts/check_conv_pool_identity.py) finds exactly such arguments.
 */
module CallGrammar {
  import opened Text
  import opened Brackets
  import opened CallArguments

  datatype Nested =
    | End
    | Char(c: char, rest: Nested)
    | Round(inner: Nested, rest: Nested)
    | Square(inner: Nested, rest: Nested)
    | Curly(inner: Nested, rest: Nested)

  predicate NestedOk(n: Nested) {
    match n
    case End => true
    case Char(c, rest) => c !in ['(', ')', '[', ']', '{', '}'] && NestedOk(rest)
    case Round(inner, rest) => NestedOk(inner) && NestedOk(rest)
    case Square(inner, rest) => NestedOk(inner) && NestedOk(rest)
    case Curly(inner, rest) => NestedOk(inner) && NestedOk(rest)
  }

  /** One argument: commas stand inside brackets only. */
  predicate OneArgument(n: Nested) {
    match n
    case End => true
    case Char(c, rest) => c != ',' && OneArgument(rest)
    case Round(_, rest) => OneArgument(rest)
    case Square(_, rest) => OneArgument(rest)
    case Curly(_, rest) => OneArgument(rest)
  }

  function Render(n: Nested): string {
    match n
    case End => ""
    case Char(c, rest) => [c] + Render(rest)
    case Round(inner, rest) => "(" + Render(inner) + ")" + Render(rest)
    case Square(inner, rest) => "[" + Render(inner) + "]" + Render(rest)
    case Curly(inner, rest) => "{" + Render(inner) + "}" + Render(rest)
  }

  // ----- Depth

  /** All is closed at the end, and no prefix closes more than it opened. */
  ghost predicate Level(s: string) {
    Net(s, Bracket) == 0 && forall k :: 0 <= k <= |s| ==> Net(s[..k], Bracket) >= 0
  }

  lemma LevelNothing()
    ensures Level("") && NoTopComma("")
  {
  }

  /** A character before a text. */
  lemma CharPrefix(c: char, r: string, k: nat)
    requires k <= |r|
    ensures Net(([c] + r)[..k + 1], Bracket) == Bracket(c) + Net(r[..k], Bracket)
  {
    assert ([c] + r)[..k + 1] == [c] + r[..k];
    NetConcat([c], r[..k], Bracket);
    NetOne(c);
  }

  lemma NetOne(c: char)
    ensures Net([c], Bracket) == Bracket(c)
  {
    assert [c][1..] == "";
  }

  lemma LevelChar(c: char, r: string)
    requires Bracket(c) == 0 && Level(r)
    ensures Level([c] + r) && (c != ',' && NoTopComma(r) ==> NoTopComma([c] + r))
  {
    hide Net, Bracket;
    var s := [c] + r;
    forall k | 0 <= k <= |s| ensures Net(s[..k], Bracket) >= 0 && (k > 0 ==> Net(s[..k], Bracket) == Net(r[..k - 1], Bracket)) {
      if k > 0 { CharPrefix(c, r, k - 1); } else { assert s[..0] == ""; NetZero(); }
    }
    assert s[..|s|] == s && r[..|r|] == r;
  }

  lemma NetZero()
    ensures Net("", Bracket) == 0
  {
  }

  /** Where a prefix of a bracketed group ends. */
  lemma GroupPrefix(o: char, i: string, c: char, r: string, k: nat)
    requires Bracket(o) == 1 && Bracket(c) == -1 && Net(i, Bracket) == 0
    ensures var s := [o] + i + [c] + r;
            && (1 <= k <= |i| + 1 ==> Net(s[..k], Bracket) == 1 + Net(i[..k - 1], Bracket))
            && (|i| + 2 <= k <= |s| ==> Net(s[..k], Bracket) == Net(r[..k - |i| - 2], Bracket))
  {
    hide Net, Bracket;
    var s := [o] + i + [c] + r;
    assert s == [o] + (i + [c] + r);
    if 1 <= k <= |i| + 1 {
      CharPrefix(o, i + [c] + r, k - 1);
      assert (i + [c] + r)[..k - 1] == i[..k - 1];
    }
    if |i| + 2 <= k <= |s| {
      var m := k - |i| - 2;
      CharPrefix(o, i + [c] + r, k - 1);
      assert (i + [c] + r)[..k - 1] == i + ([c] + r[..m]);
      NetConcat(i, [c] + r[..m], Bracket);
      NetConcat([c], r[..m], Bracket);
      NetOne(c);
    }
  }

  lemma LevelGroup(o: char, i: string, c: char, r: string)
    requires Bracket(o) == 1 && Bracket(c) == -1 && Level(i) && Level(r)
    ensures var s := [o] + i + [c] + r; Level(s) && (NoTopComma(r) ==> NoTopComma(s))
  {
    hide Net;
    var s := [o] + i + [c] + r;
    forall k | 0 <= k <= |s| ensures Net(s[..k], Bracket) >= 0 {
      GroupPrefix(o, i, c, r, k);
      if k == 0 { assert s[..0] == ""; NetZero(); }
    }
    GroupPrefix(o, i, c, r, |s|);
    assert s[..|s|] == s && r[..|r|] == r;
    if NoTopComma(r) {
      forall k | 0 <= k < |s| && s[k] == ',' ensures Net(s[..k], Bracket) != 0 {
        GroupPrefix(o, i, c, r, k);
        if k >= |i| + 2 { assert s[k] == r[k - |i| - 2]; }
        assert s[0] == o && s[|i| + 1] == c;
      }
    }
  }

  lemma {:induction false} NestedLevel(n: Nested)
    requires NestedOk(n)
    ensures Level(Render(n)) && (OneArgument(n) ==> NoTopComma(Render(n)))
  {
    hide Level, NoTopComma, Net;
    LevelNothing();
    match n
    case End =>
    case Char(c, rest) =>
      NestedLevel(rest);
      LevelChar(c, Render(rest));
    case Round(inner, rest) =>
      NestedLevel(inner);
      NestedLevel(rest);
      LevelGroup('(', Render(inner), ')', Render(rest));
    case Square(inner, rest) =>
      NestedLevel(inner);
      NestedLevel(rest);
      LevelGroup('[', Render(inner), ']', Render(rest));
    case Curly(inner, rest) =>
      NestedLevel(inner);
      NestedLevel(rest);
      LevelGroup('{', Render(inner), '}', Render(rest));
  }

  // ----- Splitting

  function Renders(args: seq<Nested>): (r: seq<string>)
    ensures |r| == |args| && forall i :: 0 <= i < |args| ==> r[i] == Render(args[i])
  {
    seq(|args|, i requires 0 <= i < |args| => Render(args[i]))
  }

  /** A list of arguments whose brackets match. */
  ghost predicate ProperArguments(args: seq<Nested>) {
    |args| > 0 && forall i :: 0 <= i < |args| ==> NestedOk(args[i]) && OneArgument(args[i])
  }

  lemma ArgumentsWellFormed(args: seq<Nested>)
    requires ProperArguments(args)
    ensures WellFormed(Renders(args)) && forall i :: 0 <= i < |args| ==> Net(Renders(args)[i], Bracket) == 0
  {
    hide NoTopComma, Net;
    forall i | 0 <= i < |args| ensures Level(Render(args[i])) && NoTopComma(Render(args[i])) { NestedLevel(args[i]); }
  }

  /** Arguments whose brackets of all three kinds match are split exactly at the commas between them. */
  lemma SplitNested(args: seq<Nested>)
    requires ProperArguments(args)
    ensures RawSplit(Join(Renders(args), ',')) == Renders(args)
  {
    ArgumentsWellFormed(args);
    SplitOfJoined(Renders(args));
  }

  lemma {:induction false} JoinedNet(parts: seq<string>)
    requires |parts| > 0 && forall i :: 0 <= i < |parts| ==> Net(parts[i], Bracket) == 0
    ensures Net(Join(parts, ','), Bracket) == 0
  {
    hide Net;
    if |parts| > 1 {
      JoinedNet(parts[1..]);
      NetConcat(parts[0] + ",", Join(parts[1..], ','), Bracket);
      NetConcat(parts[0], ",", Bracket);
      NetOne(',');
    }
  }

  /** The last top-level comma of a call stands before its last argument. */
  lemma LastCommaNested(args: seq<Nested>, last: Nested)
    requires ProperArguments(args) && ProperArguments([last])
    ensures var before := Join(Renders(args), ',');
            var text := before + "," + Render(last);
            LastComma(text, 0, |text|, |before|)
  {
    hide Net;
    var before, b := Join(Renders(args), ','), Render(last);
    var text, c := before + "," + b, |before|;
    ArgumentsWellFormed(args);
    JoinedNet(Renders(args));
    assert NestedOk([last][0]) && OneArgument([last][0]);
    NestedLevel(last);
    assert text[0..c] == before;
    forall k: nat | c < k < |text| ensures !TopComma(text, 0, k) {
      var j := k - c - 1;
      assert text[k] == b[j];
      assert text[0..k] == before + ("," + b[..j]);
      NetConcat(before, "," + b[..j], Bracket);
      NetConcat(",", b[..j], Bracket);
      NetOne(',');
    }
  }
}
