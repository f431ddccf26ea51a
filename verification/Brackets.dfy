/**
 Bracket depth, balanced text and the argument list of a call
 (function `argument_list` of scripts/check_conv_pool_identity.py).
 */
module Brackets {
  import opened Text

  /** What a character adds to the depth of parentheses. */
  function Paren(c: char): int {
    if c == '(' then 1 else if c == ')' then -1 else 0
  }

  /** The net depth a text adds. */
  function Net(s: string, delta: char -> int): int {
    if s == "" then 0 else delta(s[0]) + Net(s[1..], delta)
  }

  lemma {:induction false} NetConcat(a: string, b: string, delta: char -> int)
    ensures Net(a + b, delta) == Net(a, delta) + Net(b, delta)
  {
    if a == "" {
      assert a + b == b;
    } else {
      assert (a + b)[1..] == a[1..] + b;
      NetConcat(a[1..], b, delta);
    }
  }

  /** One more character at the end. */
  lemma NetExtend(s: string, a: nat, k: nat, delta: char -> int)
    requires a <= k < |s|
    ensures Net(s[a..k + 1], delta) == Net(s[a..k], delta) + delta(s[k])
  {
    assert s[a..k + 1] == s[a..k] + [s[k]];
    NetConcat(s[a..k], [s[k]], delta);
  }

  /** No prefix closes more than it opened, and all is closed at the end. */
  ghost predicate Balanced(s: string) {
    Net(s, Paren) == 0 && forall k :: 0 <= k <= |s| ==> Net(s[..k], Paren) >= 0
  }

  // ----- Nested text as a grammar

  datatype Nest =
    | Nil
    | Plain(c: char, rest: Nest)
    | Group(inner: Nest, rest: Nest)

  predicate NestOk(n: Nest) {
    match n
    case Nil => true
    case Plain(c, rest) => c != '(' && c != ')' && NestOk(rest)
    case Group(inner, rest) => NestOk(inner) && NestOk(rest)
  }

  function Render(n: Nest): string {
    match n
    case Nil => ""
    case Plain(c, rest) => [c] + Render(rest)
    case Group(inner, rest) => "(" + Render(inner) + ")" + Render(rest)
  }

  lemma BalancedConcat(a: string, b: string)
    requires Balanced(a) && Balanced(b)
    ensures Balanced(a + b)
  {
    NetConcat(a, b, Paren);
    forall k | 0 <= k <= |a + b| ensures Net((a + b)[..k], Paren) >= 0 {
      if k <= |a| {
        assert (a + b)[..k] == a[..k];
      } else {
        assert (a + b)[..k] == a + b[..k - |a|];
        NetConcat(a, b[..k - |a|], Paren);
      }
    }
  }

  lemma BalancedGroup(b: string)
    requires Balanced(b)
    ensures Balanced("(" + b + ")")
  {
    var s := "(" + b + ")";
    forall k | 0 <= k <= |s| ensures Net(s[..k], Paren) >= 0 {
      if 1 <= k <= |b| + 1 {
        assert s[..k] == "(" + b[..k - 1];
        NetConcat("(", b[..k - 1], Paren);
      } else if k == |s| {
        assert s[..k] == s;
        GroupNet(b);
      }
    }
    GroupNet(b);
  }

  lemma GroupNet(b: string)
    ensures Net("(" + b + ")", Paren) == Net(b, Paren)
  {
    NetConcat("(" + b, ")", Paren);
    NetConcat("(", b, Paren);
    assert Net("(", Paren) == 1 && Net(")", Paren) == -1;
  }

  lemma BalancedPlain(c: char)
    requires c != '(' && c != ')'
    ensures Balanced([c])
  {
    assert [c][..1] == [c] && [c][..0] == "";
  }

  /** Text generated by the grammar is balanced. */
  lemma {:induction false} NestBalanced(n: Nest)
    requires NestOk(n)
    ensures Balanced(Render(n))
  {
    match n
    case Nil =>
    case Plain(c, rest) =>
      BalancedPlain(c);
      NestBalanced(rest);
      BalancedConcat([c], Render(rest));
    case Group(inner, rest) =>
      NestBalanced(inner);
      NestBalanced(rest);
      BalancedGroup(Render(inner));
      BalancedConcat("(" + Render(inner) + ")", Render(rest));
  }

  // ----- The matching parenthesis

  /** `i` is the first closing parenthesis at which the depth counted from `open` is 0. */
  ghost predicate ClosesAt(s: string, open: nat, i: nat) {
    && open <= i < |s| && s[i] == ')' && Net(s[open..i + 1], Paren) == 0
    && forall k :: open <= k < i && s[k] == ')' ==> Net(s[open..k + 1], Paren) != 0
  }

  /** Inside an open call the depth stays positive until the matching parenthesis. */
  lemma {:induction false} DepthPositive(s: string, open: nat, i: nat)
    requires open < i <= |s| && s[open] == '('
    requires forall k :: open <= k < i && s[k] == ')' ==> Net(s[open..k + 1], Paren) != 0
    ensures Net(s[open..i], Paren) >= 1
    decreases i
  {
    if i == open + 1 {
      assert s[open..i] == "(";
    } else {
      DepthPositive(s, open, i - 1);
      NetExtend(s, open, i - 1, Paren);
    }
  }

  lemma InnerNet(s: string, open: nat, k: nat)
    requires open < k <= |s| && s[open] == '('
    ensures Net(s[open..k], Paren) == 1 + Net(s[open + 1..k], Paren)
  {
    assert s[open..k] == "(" + s[open + 1..k];
    NetConcat("(", s[open + 1..k], Paren);
  }

  /**
   From an open parenthesis, the first return to depth 0 is exactly the end of a
   balanced text: the matching parenthesis, and there is no other.
   */
  lemma ClosesBalanced(s: string, open: nat, i: nat)
    requires open < |s| && s[open] == '('
    ensures ClosesAt(s, open, i) <==> open < i < |s| && s[i] == ')' && Balanced(s[open + 1..i])
  {
    hide Net;
    if open < i < |s| && s[i] == ')' {
      NetExtend(s, open, i, Paren);
      InnerNet(s, open, i);
      if ClosesAt(s, open, i) {
        var b := s[open + 1..i];
        forall k | 0 <= k <= |b| ensures Net(b[..k], Paren) >= 0 {
          SliceOfSlice(s, open + 1, i, 0, k);
          InnerNet(s, open, open + 1 + k);
          DepthPositive(s, open, open + 1 + k);
        }
      }
      if Balanced(s[open + 1..i]) {
        forall k | open <= k < i && s[k] == ')' ensures Net(s[open..k + 1], Paren) != 0 {
          SliceOfSlice(s, open + 1, i, 0, k - open);
          assert Net(s[open + 1..i][..k - open], Paren) >= 0;
          InnerNet(s, open, k + 1);
        }
      }
    }
    if i == open { assert s[i] == '('; }
  }

  datatype Arguments = Arguments(text: string, end: nat)

  /**
   The text between the parenthesis at `open` and its match, and the offset just past
   the match; nothing when there is no match.
   */
  method ArgumentList(masked: string, open: nat) returns (r: Option<Arguments>)
    ensures r.Some? ==>
              && open + 2 <= r.value.end <= |masked|
              && ClosesAt(masked, open, r.value.end - 1)
              && r.value.text == masked[open + 1..r.value.end - 1]
              && (masked[open] == '(' ==> Balanced(r.value.text))
    ensures r.None? ==> forall i: nat :: !ClosesAt(masked, open, i)
    ensures r.None? && open < |masked| && masked[open] == '(' ==>
              forall i: nat :: open < i < |masked| && masked[i] == ')' ==> !Balanced(masked[open + 1..i])
  {
    hide Balanced, Net;
    if open >= |masked| {
      return None;
    }
    var depth := 0;
    NetNothing(masked, open);
    for i := open to |masked|
      invariant depth == Net(masked[open..i], Paren)
      invariant forall k :: open <= k < i && masked[k] == ')' ==> Net(masked[open..k + 1], Paren) != 0
    {
      NetExtend(masked, open, i, Paren);
      if masked[i] == '(' {
        depth := depth + 1;
      } else if masked[i] == ')' {
        depth := depth - 1;
        if depth == 0 {
          if masked[open] == '(' { ClosesBalanced(masked, open, i); }
          return Some(Arguments(masked[open + 1..i], i + 1));
        }
      }
    }
    if masked[open] == '(' {
      forall i: nat | open < i < |masked| && masked[i] == ')' ensures !Balanced(masked[open + 1..i]) {
        ClosesBalanced(masked, open, i);
      }
    }
    r := None;
  }

  lemma NetNothing(s: string, a: nat)
    requires a <= |s|
    ensures Net(s[a..a], Paren) == 0
  {
  }

  /** Every balanced text is generated by the grammar. */
  lemma {:induction false} BalancedNest(s: string) returns (n: Nest)
    requires Balanced(s)
    ensures NestOk(n) && Render(n) == s
    decreases |s|
  {
    if s == "" {
      n := Nil;
    } else if s[0] == '(' {
      var i := MatchExists(s);
      ClosesBalanced(s, 0, i);
      BalancedRest(s, i);
      var inner := BalancedNest(s[1..i]);
      var rest := BalancedNest(s[i + 1..]);
      n := Group(inner, rest);
    } else {
      assert s[..1] == [s[0]];
      assert Net(s[..1], Paren) >= 0;
      BalancedTail(s);
      var rest := BalancedNest(s[1..]);
      n := Plain(s[0], rest);
    }
  }

  lemma BalancedTail(s: string)
    requires Balanced(s) && s != "" && Paren(s[0]) == 0
    ensures Balanced(s[1..])
  {
    forall k | 0 <= k <= |s| - 1 ensures Net(s[1..][..k], Paren) >= 0 {
      assert s[..k + 1][1..] == s[1..][..k];
      assert Net(s[..k + 1], Paren) >= 0;
    }
  }

  lemma BalancedRest(s: string, i: nat)
    requires Balanced(s) && ClosesAt(s, 0, i)
    ensures Balanced(s[i + 1..])
  {
    assert s == s[..i + 1] + s[i + 1..] && s[0..i + 1] == s[..i + 1];
    NetConcat(s[..i + 1], s[i + 1..], Paren);
    var b := s[i + 1..];
    forall k | 0 <= k <= |b| ensures Net(b[..k], Paren) >= 0 {
      assert s[..i + 1 + k] == s[..i + 1] + b[..k];
      NetConcat(s[..i + 1], b[..k], Paren);
      assert Net(s[..i + 1 + k], Paren) >= 0;
    }
  }

  /** In a balanced text every parenthesis that opens is closed. */
  lemma MatchExists(s: string) returns (i: nat)
    requires Balanced(s) && s != "" && s[0] == '('
    ensures ClosesAt(s, 0, i)
  {
    i := 0;
    assert s[0..|s|] == s;
    while !(i < |s| && s[i] == ')' && Net(s[0..i + 1], Paren) == 0)
      invariant i <= |s|
      invariant forall k :: 0 <= k < i && s[k] == ')' ==> Net(s[0..k + 1], Paren) != 0
      decreases |s| - i
    {
      if i == |s| {
        DepthPositive(s, 0, |s|);
      }
      i := i + 1;
    }
  }
}
