/**
 Collapsing blanks (the last step of `strip_casts` of
 scripts/check_conv_pool_identity.py), and what it does to brackets and prefixes.
 */
module Collapsing {
  import opened Text
  import opened Brackets
  import opened CallArguments

  /** Runs of blanks become one space. */
  function Collapse(s: string): string {
    if s == "" then ""
    else if PySpace(s[0]) then " " + Collapse(TrimLeft(s, PySpace))
    else [s[0]] + Collapse(s[1..])
  }

  /** The text without its blanks. */
  function Solid(s: string): string {
    if s == "" then "" else (if PySpace(s[0]) then "" else [s[0]]) + Solid(s[1..])
  }

  /** Every blank is one space, and no two stand side by side. */
  predicate SingleSpaced(s: string) {
    forall i :: 0 <= i < |s| && PySpace(s[i]) ==> s[i] == ' ' && (i + 1 < |s| ==> !PySpace(s[i + 1]))
  }

  lemma {:induction false} SolidTrimmed(s: string)
    ensures Solid(TrimLeft(s, PySpace)) == Solid(s)
  {
    if s != "" && PySpace(s[0]) { SolidTrimmed(s[1..]); }
  }

  lemma NoBlanks()
    ensures PySpace(' ') && Solid("") == "" && SingleSpaced("")
  {
  }

  lemma SolidCons(c: char, s: string)
    ensures Solid([c] + s) == (if PySpace(c) then "" else [c]) + Solid(s)
  {
    hide PySpace;
    assert ([c] + s)[1..] == s;
  }

  lemma SingleSpacedCons(c: char, s: string)
    requires SingleSpaced(s) && (PySpace(c) ==> c == ' ' && (s == "" || !PySpace(s[0])))
    ensures SingleSpaced([c] + s)
  {
    hide PySpace;
    var t := [c] + s;
    forall i | 0 <= i < |t| && PySpace(t[i]) ensures t[i] == ' ' && (i + 1 < |t| ==> !PySpace(t[i + 1])) {
      if i > 0 { assert t[i] == s[i - 1] && PySpace(s[i - 1]); }
    }
  }

  /** Collapsing keeps everything but blanks, in order, and leaves single spaces only. */
  lemma {:induction false} CollapseKeeps(s: string)
    ensures Solid(Collapse(s)) == Solid(s) && SingleSpaced(Collapse(s))
    ensures s != "" ==> Collapse(s) != "" && (PySpace(Collapse(s)[0]) <==> PySpace(s[0]))
    decreases |s|
  {
    hide PySpace, Solid, SingleSpaced;
    NoBlanks();
    if s != "" {
      var blank := PySpace(s[0]);
      var c, t := if blank then ' ' else s[0], if blank then TrimLeft(s, PySpace) else s[1..];
      CollapseKeeps(t);
      SolidCons(c, Collapse(t));
      SolidCons(s[0], s[1..]);
      assert s == [s[0]] + s[1..];
      SolidTrimmed(s);
      SolidCons(' ', t);
      SingleSpacedCons(c, Collapse(t));
    }
  }

  // ----- Cutting a collapsed text

  /** What is left after the first character, or after the first run of blanks. */
  function Rest(s: string): (r: string)
    requires s != ""
    ensures |r| < |s| && r == s[|s| - |r|..]
  {
    if PySpace(s[0]) then TrimLeft(s, PySpace) else s[1..]
  }

  function Kept(c: char): char {
    if PySpace(c) then ' ' else c
  }

  lemma CollapseStep(s: string)
    requires s != ""
    ensures Collapse(s) == [Kept(s[0])] + Collapse(Rest(s))
  {
  }

  lemma RestCut(s: string, t: string)
    requires s != "" && (t == "" || !PySpace(t[0]))
    ensures Rest(s + t) == Rest(s) + t
  {
    hide PySpace, TrimLeft;
    if PySpace(s[0]) {
      var u := TrimLeft(s, PySpace);
      var r := |s| - |u|;
      ConcatAssoc(s[..r], u, t);
      assert s == s[..r] + u;
      TrimLeftOf(s[..r], u + t, PySpace);
    } else {
      assert (s + t)[1..] == s[1..] + t;
    }
  }

  lemma RestPrefix(s: string, k: nat)
    requires 0 < k <= |s|
    ensures var r := |s| - |Rest(s)|; Rest(s[..k]) == if k <= r then "" else Rest(s)[..k - r]
  {
    hide PySpace, TrimLeft;
    if PySpace(s[0]) {
      var t := TrimLeft(s, PySpace);
      var r := |s| - |t|;
      var l, u := if k <= r then s[..k] else s[..r], if k <= r then "" else t[..k - r];
      assert s[..k] == l + u;
      assert AllBlank(l, PySpace) by { assert forall c :: c in l ==> c in s[..r]; }
      TrimLeftOf(l, u, PySpace);
    } else {
      assert s[..k][1..] == s[1..][..k - 1];
    }
  }

  /** The collapsed text of a prefix is a prefix. */
  lemma {:induction false} CollapsePrefix(s: string, k: nat)
    requires k <= |s|
    ensures Collapse(s[..k]) <= Collapse(s)
    decreases |s|
  {
    hide Collapse, Rest, Kept;
    CollapseNothing();
    if k > 0 {
      var r := |s| - |Rest(s)|;
      var k' := if k <= r then 0 else k - r;
      CollapsePrefix(Rest(s), k');
      RestPrefix(s, k);
      CollapseStep(s);
      CollapseStep(s[..k]);
      assert Rest(s[..k]) == Rest(s)[..k'];
    } else {
      assert s[..k] == "";
    }
  }

  lemma CollapseNothing()
    ensures Collapse("") == ""
  {
  }

  /** Every prefix of a collapsed text comes from a prefix of the text, and so does a solid character after it. */
  lemma {:induction false} PrefixFrom(s: string, j: nat) returns (k: nat)
    requires j <= |Collapse(s)|
    ensures k <= |s| && Collapse(s[..k]) == Collapse(s)[..j]
    ensures j < |Collapse(s)| && !PySpace(Collapse(s)[j]) ==> k < |s| && s[k] == Collapse(s)[j]
    decreases |s|
  {
    hide Collapse, Rest, PySpace;
    CollapseNothing();
    NoBlanks();
    if s != "" { CollapseStep(s); }
    if j == 0 {
      k := 0;
      assert s[..0] == "" && Collapse(s)[..0] == "";
    } else {
      var k' := PrefixFrom(Rest(s), j - 1);
      var r := |s| - |Rest(s)|;
      k := r + k';
      RestPrefix(s, k);
      CollapseStep(s[..k]);
      assert k' == 0 ==> Rest(s)[..0] == "";
      var c := Collapse(Rest(s));
      assert Collapse(s)[..j] == [Kept(s[0])] + c[..j - 1];
    }
  }

  /** A solid character cuts a text and its collapsed text alike. */
  lemma {:induction false} CollapseCut(a: string, c: char, b: string)
    requires !PySpace(c)
    ensures Collapse(a + [c] + b) == Collapse(a) + [c] + Collapse(b)
    decreases |a|
  {
    hide Collapse, Rest, PySpace, Kept;
    CollapseNothing();
    ConcatAssoc(a, [c], b);
    if a == "" {
      SolidFirst(c, b);
      assert a + [c] + b == [c] + b && "" + [c] + Collapse(b) == [c] + Collapse(b);
    } else {
      CollapseCut(Rest(a), c, b);
      RestCut(a, [c] + b);
      ConcatAssoc(Rest(a), [c], b);
      CollapseStep(a);
      CollapseStep(a + ([c] + b));
      ConcatAssoc([Kept(a[0])], Collapse(Rest(a)), [c] + Collapse(b));
      ConcatAssoc(Collapse(Rest(a)), [c], Collapse(b));
      ConcatAssoc(Collapse(a), [c], Collapse(b));
    }
  }

  lemma SolidFirst(c: char, b: string)
    requires !PySpace(c)
    ensures Collapse([c] + b) == [c] + Collapse(b)
  {
    assert ([c] + b)[1..] == b;
  }

  // ----- Brackets

  lemma {:induction false} BlankNet(l: string, s: string)
    requires AllBlank(l, PySpace)
    ensures Net(l + s, Paren) == Net(s, Paren)
  {
    if l == "" {
      assert l + s == s;
    } else {
      assert (l + s)[1..] == l[1..] + s && l[0] in l;
      assert forall c :: c in l[1..] ==> c in l;
      BlankNet(l[1..], s);
    }
  }

  lemma {:induction false} NetCollapsed(s: string)
    ensures Net(Collapse(s), Paren) == Net(s, Paren)
    decreases |s|
  {
    if s != "" {
      if PySpace(s[0]) {
        var t := TrimLeft(s, PySpace);
        var r := |s| - |t|;
        assert s == s[..r] + t;
        BlankNet(s[..r], t);
        NetCollapsed(t);
        assert Collapse(s)[1..] == Collapse(t);
      } else {
        NetCollapsed(s[1..]);
        assert Collapse(s)[1..] == Collapse(s[1..]);
      }
    }
  }

  /** Collapsing keeps brackets balanced, and unbalanced. */
  lemma BalancedCollapsed(s: string)
    ensures Balanced(Collapse(s)) <==> Balanced(s)
  {
    hide Net, Collapse;
    var c := Collapse(s);
    NetCollapsed(s);
    if Balanced(c) {
      forall k | 0 <= k <= |s| ensures Net(s[..k], Paren) >= 0 {
        CollapsePrefix(s, k);
        NetCollapsed(s[..k]);
        assert Collapse(s[..k]) == c[..|Collapse(s[..k])|];
      }
    }
    if Balanced(s) {
      forall j | 0 <= j <= |c| ensures Net(c[..j], Paren) >= 0 {
        var k := PrefixFrom(s, j);
        NetCollapsed(s[..k]);
      }
    }
  }

  /** Collapsing twice is collapsing once. */
  lemma {:induction false} CollapseTwice(s: string)
    requires SingleSpaced(s)
    ensures Collapse(s) == s
  {
    hide PySpace, Collapse, Rest;
    CollapseNothing();
    if s != "" {
      SingleSpacedTail(s);
      CollapseTwice(s[1..]);
      CollapseStep(s);
      assert s == [s[0]] + s[1..];
      if PySpace(s[0]) {
        RestCut([s[0]], s[1..]);
        OneRest(s[0]);
      } else {
        SolidFirst(s[0], s[1..]);
      }
    }
  }

  lemma OneRest(c: char)
    ensures Rest([c]) == ""
  {
  }

  lemma SingleSpacedTail(s: string)
    requires s != "" && SingleSpaced(s)
    ensures SingleSpaced(s[1..]) && Kept(s[0]) == s[0]
    ensures PySpace(s[0]) && |s| > 1 ==> !PySpace(s[1])
  {
    hide PySpace;
    var t := s[1..];
    forall i | 0 <= i < |t| && PySpace(t[i]) ensures t[i] == ' ' && (i + 1 < |t| ==> !PySpace(t[i + 1])) {
      assert PySpace(s[i + 1]);
    }
  }
}
