/**
 Peeling casts and redundant parentheses off an argument (function `strip_casts` of
 scripts/check_conv_pool_identity.py).
 */
module CastPeeling {
  import opened Text
  import opened Brackets
  import opened CallArguments
  import opened Collapsing

  predicate IdentStart(c: char) {
    'A' <= c <= 'Z' || 'a' <= c <= 'z' || c == '_'
  }

  /** The characters allowed between the parentheses of a cast. */
  predicate CastChar(c: char) {
    IdentStart(c) || IsDigit(c) || PySpace(c) || c == '*'
  }

  /** A type name: blanks, then an identifier character, then any of the cast characters. */
  predicate TypeText(t: string) {
    (forall c :: c in t ==> CastChar(c)) && var u := TrimLeft(t, PySpace); u != "" && IdentStart(u[0])
  }

  /** A leading cast up to index `p`, with something after it. */
  predicate CastTo(e: string, p: nat) {
    0 < p < |e| - 1 && e[0] == '(' && e[p] == ')' && TypeText(e[1..p])
  }

  ghost predicate LeadingCast(e: string) {
    exists p: nat :: CastTo(e, p)
  }

  /** Wrapped in one pair of parentheses as a whole. */
  ghost predicate WhollyParenthesised(e: string) {
    |e| >= 2 && e[0] == '(' && ClosesAt(e, 0, |e| - 1)
  }

  /** A text that starts and ends with parentheses that do not match. */
  ghost predicate Stuck(e: string) {
    |e| >= 1 && e[0] == '(' && e[|e| - 1] == ')' && forall i: nat :: !ClosesAt(e, 0, i)
  }

  /** Nothing is left to peel. */
  ghost predicate Bare(e: string) {
    Trimmed(e, PySpace) && !LeadingCast(e) && !WhollyParenthesised(e)
  }

  // ----- The peeling loop

  /** The first closing parenthesis. */
  function FirstClosing(e: string): (p: nat)
    ensures p <= |e| && ')' !in e[..p] && (p < |e| ==> e[p] == ')')
  {
    if e == "" || e[0] == ')' then 0
    else
      assert e[..1 + FirstClosing(e[1..])] == [e[0]] + e[1..][..FirstClosing(e[1..])];
      1 + FirstClosing(e[1..])
  }

  lemma {:induction false} FirstClosingIs(e: string, p: nat)
    requires p < |e| && ')' !in e[..p] && e[p] == ')'
    ensures FirstClosing(e) == p
  {
    if p > 0 {
      assert e[..p][0] == e[0];
      assert e[1..][..p - 1] == e[..p][1..];
      FirstClosingIs(e[1..], p - 1);
    }
  }

  /** A cast can only end at the first closing parenthesis. */
  lemma CastEnds(e: string, p: nat)
    requires CastTo(e, p)
    ensures p == FirstClosing(e)
  {
    assert !CastChar(')');
    assert e[..p] == ['('] + e[1..p];
    FirstClosingIs(e, p);
  }

  /** One round: the text without its outermost cast or parentheses, or why it stays. */
  datatype Round = Next(expr: string) | Unchanged | Unbalanced

  ghost predicate RoundOk(e: string, r: Round) {
    match r
    case Next(n) => |n| < |e| && Trimmed(n, PySpace) && ((exists p: nat :: CastTo(e, p) && n == Strip(e[p + 1..]))
                    || (!LeadingCast(e) && WhollyParenthesised(e) && n == Strip(e[1..|e| - 1])))
    case Unchanged => !LeadingCast(e) && !WhollyParenthesised(e) && !Stuck(e)
    case Unbalanced => !LeadingCast(e) && Stuck(e)
  }

  lemma StripShrinks(s: string)
    ensures |Strip(s)| <= |s| && Trimmed(Strip(s), PySpace)
  {
    var l, r := TrimSpec(s, PySpace);
  }

  method PeelOnce(e: string) returns (r: Round)
    ensures RoundOk(e, r)
  {
    hide ClosesAt, TypeText, Strip;
    var p := FirstClosing(e);
    forall q: nat | CastTo(e, q) ensures q == p { CastEnds(e, q); }
    if CastTo(e, p) {
      StripShrinks(e[p + 1..]);
      return Next(Strip(e[p + 1..]));
    }
    if e != "" && e[0] == '(' && e[|e| - 1] == ')' {
      var inner := ArgumentList(e, 0);
      if inner.None? {
        return Unbalanced;
      }
      if inner.value.end == |e| {
        StripShrinks(inner.value.text);
        return Next(Strip(inner.value.text));
      }
      NotWhole(e, inner.value.end - 1);
    } else {
      NotWholeEnds(e);
    }
    r := Unchanged;
  }

  lemma NotWhole(e: string, i: nat)
    requires ClosesAt(e, 0, i) && i != |e| - 1
    ensures !WhollyParenthesised(e)
  {
  }

  lemma NotWholeEnds(e: string)
    requires !(e != "" && e[0] == '(' && e[|e| - 1] == ')')
    ensures !WhollyParenthesised(e)
  {
  }

  // ----- Layers of casts and parentheses

  /** What can stand around an expression: a cast, or a pair of parentheses, with blanks. */
  datatype Layer = Cast(typ: string, gap: string) | Parens(left: string, right: string)

  predicate LayerOk(l: Layer) {
    match l
    case Cast(typ, gap) => TypeText(typ) && AllBlank(gap, PySpace)
    case Parens(left, right) => AllBlank(left, PySpace) && AllBlank(right, PySpace)
  }

  function WrapOne(l: Layer, e: string): string {
    match l
    case Cast(typ, gap) => "(" + typ + ")" + gap + e
    case Parens(left, right) => "(" + left + e + right + ")"
  }

  /** The expression inside all layers, the first one outermost. */
  function Wrap(layers: seq<Layer>, e: string): string {
    if layers == [] then e else WrapOne(layers[0], Wrap(layers[1..], e))
  }

  /** A proper wrapping: trimmed inside, balanced inside parentheses, non-empty behind a cast. */
  ghost predicate WrapOk(layers: seq<Layer>, e: string) {
    layers == [] ||
    var inner := Wrap(layers[1..], e);
    && LayerOk(layers[0]) && Trimmed(inner, PySpace)
    && (if layers[0].Parens? then Balanced(inner) else inner != "")
    && WrapOk(layers[1..], e)
  }

  lemma CastWrapText(typ: string, gap: string, e: string)
    ensures var w := "(" + typ + ")" + gap + e;
            && |w| == |typ| + 2 + |gap| + |e| && w[0] == '(' && w[|typ| + 1] == ')'
            && w[1..|typ| + 1] == typ && w[|typ| + 2..] == gap + e
  {
    var h := "(" + typ + ")";
    assert h + gap + e == h + (gap + e) && h[1..|typ| + 1] == typ && h[|typ| + 1] == ')';
  }

  lemma CastLayerIsCast(typ: string, gap: string, e: string)
    requires TypeText(typ) && AllBlank(gap, PySpace) && e != "" && Trimmed(e, PySpace)
    ensures var w := WrapOne(Cast(typ, gap), e); CastTo(w, |typ| + 1) && Strip(w[|typ| + 2..]) == e
  {
    hide TypeText, Trim;
    CastWrapText(typ, gap, e);
    TypeNotEmpty(typ);
    TrimOf(gap, e, "", PySpace);
    assert gap + e + "" == gap + e;
  }

  lemma TypeNotEmpty(typ: string)
    requires TypeText(typ)
    ensures typ != "" && '(' !in typ && ')' !in typ
  {
    assert !CastChar('(') && !CastChar(')');
  }

  lemma TypeFlat(typ: string)
    ensures TypeText(typ) ==> Net(typ, Paren) == 0
  {
    if TypeText(typ) {
      TypeNotEmpty(typ);
      FlatNet(typ);
    }
  }

  lemma BlankBalanced(l: string, e: string, r: string)
    requires AllBlank(l, PySpace) && AllBlank(r, PySpace)
    ensures Balanced(l + e + r) <==> Balanced(e)
  {
    BlankBefore(l, e + r);
    BlankAfter(e, r);
    ConcatAssoc(l, e, r);
  }

  lemma {:induction false} BlankBefore(l: string, e: string)
    requires AllBlank(l, PySpace)
    ensures Balanced(l + e) <==> Balanced(e)
  {
    if l == "" {
      assert l + e == e;
    } else {
      assert l[0] in l && Paren(l[0]) == 0;
      assert (l + e)[1..] == l[1..] + e && l + e == [l[0]] + (l[1..] + e);
      BlankBefore(l[1..], e);
      if Balanced(l + e) {
        BalancedTail(l + e);
      }
      if Balanced(l[1..] + e) {
        BalancedPlain(l[0]);
        BalancedConcat([l[0]], l[1..] + e);
      }
    }
  }

  lemma {:induction false} BlankAfter(e: string, r: string)
    requires AllBlank(r, PySpace)
    ensures Balanced(e + r) <==> Balanced(e)
  {
    if r == "" {
      assert e + r == e;
    } else {
      var n := |r| - 1;
      assert r[n] in r && Paren(r[n]) == 0;
      assert e + r == (e + r[..n]) + [r[n]];
      BlankAfter(e, r[..n]);
      DropLast(e + r[..n], r[n]);
    }
  }

  lemma DropLast(e: string, c: char)
    requires Paren(c) == 0
    ensures Balanced(e + [c]) <==> Balanced(e)
  {
    NetConcat(e, [c], Paren);
    if Balanced(e + [c]) {
      forall k | 0 <= k <= |e| ensures Net(e[..k], Paren) >= 0 {
        assert (e + [c])[..k] == e[..k];
        assert Net((e + [c])[..k], Paren) >= 0;
      }
    }
    if Balanced(e) {
      BalancedPlain(c);
      BalancedConcat(e, [c]);
    }
  }

  /** Parentheses around a balanced text are recognised as such, and not as a cast. */
  lemma ParensLayerIsWhole(left: string, right: string, e: string)
    requires AllBlank(left, PySpace) && AllBlank(right, PySpace) && Trimmed(e, PySpace) && Balanced(e)
    ensures var w := WrapOne(Parens(left, right), e);
            WhollyParenthesised(w) && !LeadingCast(w) && Strip(w[1..|w| - 1]) == e
  {
    var w, b := WrapOne(Parens(left, right), e), left + e + right;
    assert w == "(" + b + ")" && w[1..|w| - 1] == b;
    BlankBalanced(left, e, right);
    ClosesBalanced(w, 0, |w| - 1);
    TrimOf(left, e, right, PySpace);
    forall p: nat ensures !CastTo(w, p) { NotACast(b, p); }
  }

  /** A cast inside balanced parentheses would close more than it opens. */
  lemma NotACast(b: string, p: nat)
    requires Balanced(b)
    ensures !CastTo("(" + b + ")", p)
  {
    hide TypeText;
    var w := "(" + b + ")";
    if 0 < p < |w| - 1 && w[p] == ')' {
      assert w[1..p] == b[..p - 1] && b[p - 1] == ')';
      assert b[0..p - 1] == b[..p - 1] && b[0..p] == b[..p];
      TypeFlat(b[..p - 1]);
      NetExtend(b, 0, p - 1, Paren);
      assert Net(b[..p], Paren) >= 0;
    }
  }

  lemma {:induction false} FlatNet(s: string)
    requires '(' !in s && ')' !in s
    ensures Net(s, Paren) == 0
  {
    if s != "" {
      assert s[0] in s;
      FlatNet(s[1..]);
    }
  }

  /** A round undoes exactly one layer. */
  lemma LayerRound(l: Layer, e: string, r: Round)
    requires LayerOk(l) && Trimmed(e, PySpace) && (if l.Parens? then Balanced(e) else e != "")
    requires RoundOk(WrapOne(l, e), r)
    ensures r == Next(e)
  {
    hide Strip, ClosesAt, TypeText, WrapOne, Balanced;
    var w := WrapOne(l, e);
    match l
    case Cast(typ, gap) =>
      CastLayerIsCast(typ, gap, e);
      assert LeadingCast(w);
      CastEnds(w, |typ| + 1);
      forall p: nat | CastTo(w, p) ensures p == |typ| + 1 { CastEnds(w, p); }
    case Parens(left, right) =>
      ParensLayerIsWhole(left, right, e);
  }

  /** And what a round takes off is a layer. */
  lemma RoundLayer(e: string, n: string) returns (l: Layer)
    requires Trimmed(e, PySpace) && RoundOk(e, Next(n))
    ensures LayerOk(l) && WrapOne(l, n) == e && (if l.Parens? then Balanced(n) else n != "")
  {
    hide ClosesAt, TypeText, Balanced, LayerOk, WrapOne, Strip;
    if !LeadingCast(e) {
      l := ParensTaken(e);
    } else {
      var p: nat :| CastTo(e, p) && n == Strip(e[p + 1..]);
      l := CastTaken(e, p);
    }
  }

  lemma ParensTaken(e: string) returns (l: Layer)
    requires WhollyParenthesised(e)
    ensures l.Parens? && LayerOk(l) && WrapOne(l, Strip(e[1..|e| - 1])) == e && Balanced(Strip(e[1..|e| - 1]))
  {
    hide ClosesAt, Balanced, Trim;
    var a, b := TrimSpec(e[1..|e| - 1], PySpace);
    l := Parens(a, b);
    WholeInside(e, a, Strip(e[1..|e| - 1]), b);
  }

  lemma CastTaken(e: string, p: nat) returns (l: Layer)
    requires Trimmed(e, PySpace) && CastTo(e, p)
    ensures l.Cast? && LayerOk(l) && WrapOne(l, Strip(e[p + 1..])) == e && Strip(e[p + 1..]) != ""
  {
    hide TypeText, Trim;
    var rest := e[p + 1..];
    var n := Strip(rest);
    var a, b := TrimSpec(rest, PySpace);
    assert e == e[..p + 1] + rest;
    NothingTrails(rest, a, n, b);
    assert a + n + "" == a + n;
    l := Cast(e[1..p], a);
    CastText(e, p, a, n);
  }

  lemma WholeInside(e: string, a: string, n: string, b: string)
    requires WhollyParenthesised(e) && e[1..|e| - 1] == a + n + b && AllBlank(a, PySpace) && AllBlank(b, PySpace)
    ensures e == "(" + a + n + b + ")" && Balanced(n)
  {
    ClosesBalanced(e, 0, |e| - 1);
    BlankBalanced(a, n, b);
    assert e == "(" + e[1..|e| - 1] + ")";
  }

  lemma NothingTrails(e: string, a: string, n: string, b: string)
    requires e != "" && !PySpace(e[|e| - 1]) && AllBlank(a, PySpace) && AllBlank(b, PySpace) && e == a + n + b
    ensures b == "" && n != ""
  {
    assert e[|e| - 1] == (a + n + b)[|a| + |n| + |b| - 1];
  }

  lemma CastText(e: string, p: nat, a: string, n: string)
    requires CastTo(e, p) && e[p + 1..] == a + n
    ensures e == "(" + e[1..p] + ")" + a + n
  {
    assert e == e[..1] + e[1..p] + e[p..p + 1] + e[p + 1..];
  }

  /** A wrapped text is not bare. */
  lemma WrappedNotBare(layers: seq<Layer>, e: string)
    requires layers != [] && WrapOk(layers, e)
    ensures !Bare(Wrap(layers, e))
  {
    hide ClosesAt, TypeText, Balanced, Strip;
    var inner := Wrap(layers[1..], e);
    match layers[0]
    case Cast(typ, gap) => CastLayerIsCast(typ, gap, inner);
    case Parens(left, right) => ParensLayerIsWhole(left, right, inner);
  }

  lemma WrappedRound(layers: seq<Layer>, e: string)
    requires layers != [] && WrapOk(layers, e)
    ensures RoundOk(Wrap(layers, e), Next(Wrap(layers[1..], e)))
  {
    hide ClosesAt, TypeText, Balanced, Strip;
    var inner := Wrap(layers[1..], e);
    match layers[0]
    case Cast(typ, gap) => CastLayerIsCast(typ, gap, inner);
    case Parens(left, right) => ParensLayerIsWhole(left, right, inner);
  }

  /** However a text is wrapped, there is only one bare expression inside. */
  lemma {:induction false} CoreUnique(layers: seq<Layer>, core: string, layers': seq<Layer>, core': string)
    requires WrapOk(layers, core) && WrapOk(layers', core') && Bare(core) && Bare(core')
    requires Wrap(layers, core) == Wrap(layers', core')
    ensures core == core'
    decreases |layers|
  {
    hide Bare, RoundOk, LayerOk, WrapOne;
    if layers == [] {
      if layers' != [] { WrappedNotBare(layers', core'); }
    } else if layers' == [] {
      WrappedNotBare(layers, core);
    } else {
      WrappedRound(layers', core');
      LayerRound(layers[0], Wrap(layers[1..], core), Next(Wrap(layers'[1..], core')));
      CoreUnique(layers[1..], core, layers'[1..], core');
    }
  }

  lemma {:induction false} WrapInner(layers: seq<Layer>, l: Layer, e: string)
    requires LayerOk(l) && Trimmed(e, PySpace) && (if l.Parens? then Balanced(e) else e != "")
    requires WrapOk(layers, WrapOne(l, e))
    ensures WrapOk(layers + [l], e) && Wrap(layers + [l], e) == Wrap(layers, WrapOne(l, e))
  {
    hide LayerOk, WrapOne, Balanced, Trimmed;
    if layers == [] {
      assert [l][1..] == [] && layers + [l] == [l];
    } else {
      assert (layers + [l])[1..] == layers[1..] + [l];
      WrapInner(layers[1..], l, e);
    }
  }

  lemma WrapNothing(e: string)
    ensures WrapOk([], e) && Wrap([], e) == e
  {
  }

  lemma NotWholeUnmatched(e: string)
    requires Stuck(e)
    ensures !WhollyParenthesised(e)
  {
  }

  /** A text is stuck exactly when it has parentheses at both ends and the first never closes. */
  lemma StuckExactly(e: string)
    ensures Stuck(e) <==>
            && e != "" && e[0] == '(' && e[|e| - 1] == ')'
            && forall i: nat :: 0 < i < |e| && e[i] == ')' ==> !Balanced(e[1..i])
  {
    hide Balanced, ClosesAt;
    if e != "" && e[0] == '(' {
      forall i: nat ensures ClosesAt(e, 0, i) <==> 0 < i < |e| && e[i] == ')' && Balanced(e[1..i]) {
        ClosesBalanced(e, 0, i);
      }
    }
  }

  /** One parenthesis too many in front. */
  lemma StuckExample(e: string)
    requires '(' !in e && ')' !in e
    ensures Stuck("((" + e + ")")
  {
    hide Net;
    var s := "((" + e + ")";
    StuckExactly(s);
    forall k | 0 <= k < |s| - 1 ensures s[k] != ')' {
      if k >= 2 { assert s[k] == e[k - 2] && e[k - 2] in e; }
    }
    forall i: nat | 0 < i < |s| && s[i] == ')' ensures !Balanced(s[1..i]) {
      assert s[1..i] == "(" + e;
      NetConcat("(", e, Paren);
      FlatNet(e);
      NetOpen();
    }
  }

  lemma NetOpen()
    ensures Net("(", Paren) == 1
  {
  }

  // ----- Bare texts with their blanks collapsed

  /** A trimmed text keeps its first and last character. */
  lemma CollapsedEnds(e: string)
    requires e != "" && Trimmed(e, PySpace)
    ensures var c := Collapse(e); c != "" && c[0] == e[0] && c[|c| - 1] == e[|e| - 1]
  {
    hide Collapse, PySpace;
    var n := |e| - 1;
    assert e == "" + [e[0]] + e[1..] && e == e[..n] + [e[n]] + "";
    CollapseNothing();
    CollapseCut("", e[0], e[1..]);
    CollapseCut(e[..n], e[n], "");
  }

  /** Between the first character and a solid one, collapsing works on the text alone. */
  lemma CollapsedBetween(e: string, k: nat)
    requires 0 < k < |e| && !PySpace(e[0]) && !PySpace(e[k])
    ensures var c, j := Collapse(e), |Collapse(e[..k])|;
            && 0 < j < |c| && c[j] == e[k] && c[1..j] == Collapse(e[1..k]) && c[j + 1..] == Collapse(e[k + 1..])
  {
    hide Collapse, PySpace;
    CutAt(e, k);
    CollapseCut(e[..k], e[k], e[k + 1..]);
    assert e[..k] == [e[0]] + e[1..k];
    SolidFirst(e[0], e[1..k]);
  }

  /** The other way round: a solid character of the collapsed text. */
  lemma CollapsedFrom(e: string, j: nat) returns (k: nat)
    requires e != "" && !PySpace(e[0]) && 0 < j < |Collapse(e)| && !PySpace(Collapse(e)[j])
    ensures 0 < k < |e| && e[k] == Collapse(e)[j] && j == |Collapse(e[..k])|
  {
    hide Collapse, PySpace;
    k := PrefixFrom(e, j);
    CollapseNothing();
    assert e[..0] == "";
  }

  lemma {:induction false} TypeCollapsed(t: string)
    requires TypeText(Collapse(t))
    ensures TypeText(t)
  {
    hide PySpace, Collapse;
    forall c | c in t ensures CastChar(c) {
      if !PySpace(c) {
        var k :| 0 <= k < |t| && t[k] == c;
        CutAt(t, k);
        CollapseCut(t[..k], c, t[k + 1..]);
        assert c in Collapse(t);
      }
    }
    FirstSolid(t);
  }

  /** The first solid character is the same. */
  lemma FirstSolid(t: string)
    ensures var u, v := TrimLeft(t, PySpace), TrimLeft(Collapse(t), PySpace);
            (u == "" <==> v == "") && (u != "" ==> u[0] == v[0])
  {
    hide PySpace, Collapse, TrimLeft;
    var u := TrimLeft(t, PySpace);
    var l := t[..|t| - |u|];
    assert t == l + u;
    CollapseNothing();
    if u != "" {
      assert u == [u[0]] + u[1..];
      SolidFirst(u[0], u[1..]);
    }
    LeadingBlanks(l, u);
    var gap := if l == "" then "" else " ";
    assert AllBlank(gap, PySpace) by { BlankSpace(); }
    TrimLeftOf(gap, Collapse(u), PySpace);
  }

  lemma BlankSpace()
    ensures PySpace(' ')
  {
  }

  /** Leading blanks collapse to one space. */
  lemma LeadingBlanks(l: string, u: string)
    requires AllBlank(l, PySpace) && (u == "" || !PySpace(u[0]))
    ensures Collapse(l + u) == (if l == "" then "" else " ") + Collapse(u)
  {
    hide PySpace, TrimLeft;
    if l == "" {
      assert l + u == u;
    } else {
      assert (l + u)[0] == l[0] && l[0] in l;
      TrimLeftOf(l, u, PySpace);
    }
  }

  /** What is bare stays bare when its blanks are collapsed, and its parentheses match as before. */
  lemma BareCollapsed(e: string)
    requires Bare(e)
    ensures Bare(Collapse(e)) && (Stuck(Collapse(e)) <==> Stuck(e))
  {
    hide Collapse, PySpace, LeadingCast, WhollyParenthesised, Stuck, Trimmed;
    CollapseNothing();
    if e != "" {
      CollapsedTrimmed(e);
      CastCollapsed(e);
      WholeCollapsed(e);
      StuckCollapsed(e);
    }
  }

  lemma CollapsedTrimmed(e: string)
    requires e != "" && Trimmed(e, PySpace)
    ensures Trimmed(Collapse(e), PySpace)
  {
    hide Collapse, PySpace;
    CollapsedEnds(e);
  }

  /** A cast that shows after collapsing was one before. */
  lemma CastCollapsed(e: string)
    requires e != "" && Trimmed(e, PySpace)
    ensures LeadingCast(Collapse(e)) ==> LeadingCast(e)
  {
    hide Collapse, PySpace, TypeText;
    var c := Collapse(e);
    CollapsedEnds(e);
    PlainChars();
    if p: nat :| CastTo(c, p) {
      var k := CollapsedFrom(e, p);
      CollapsedBetween(e, k);
      TypeCollapsed(e[1..k]);
      CollapseNothing();
      assert CastTo(e, k);
    }
  }

  /** Matching parentheses before and after collapsing. */
  lemma ClosesCollapsed(e: string, k: nat)
    requires 0 < k < |e| && e[0] == '(' && !PySpace(e[k])
    ensures var j := |Collapse(e[..k])|;
            0 < j < |Collapse(e)| && Collapse(e)[0] == '(' && (ClosesAt(Collapse(e), 0, j) <==> ClosesAt(e, 0, k))
  {
    hide Collapse, PySpace, ClosesAt, Balanced;
    var c, j := Collapse(e), |Collapse(e[..k])|;
    PlainChars();
    assert e == [e[0]] + e[1..];
    SolidFirst(e[0], e[1..]);
    CollapsedBetween(e, k);
    ClosesBalanced(e, 0, k);
    ClosesBalanced(c, 0, j);
    BalancedCollapsed(e[1..k]);
  }

  lemma WholeCollapsed(e: string)
    requires e != "" && Trimmed(e, PySpace)
    ensures WhollyParenthesised(Collapse(e)) <==> WhollyParenthesised(e)
  {
    hide Collapse, PySpace, ClosesAt;
    var c, n := Collapse(e), |e| - 1;
    CollapsedEnds(e);
    CollapseNothing();
    assert e == e[..n] + [e[n]] + "";
    CollapseCut(e[..n], e[n], "");
    assert |c| == |Collapse(e[..n])| + 1;
    if n == 0 {
      assert e[..0] == "";
    } else if e[0] == '(' {
      ClosesCollapsed(e, n);
    }
  }

  lemma StuckCollapsed(e: string)
    requires e != "" && Trimmed(e, PySpace)
    ensures Stuck(Collapse(e)) <==> Stuck(e)
  {
    hide Collapse, PySpace, ClosesAt;
    var c := Collapse(e);
    CollapsedEnds(e);
    PlainChars();
    if e[0] == '(' {
      if i: nat :| ClosesAt(e, 0, i) {
        ClosedChar(e, i);
        ClosesCollapsed(e, i);
      }
      if j: nat :| ClosesAt(c, 0, j) {
        ClosedChar(c, j);
        var k := CollapsedFrom(e, j);
        ClosesCollapsed(e, k);
      }
    }
  }

  lemma ClosedChar(s: string, i: nat)
    requires ClosesAt(s, 0, i) && s[0] == '('
    ensures 0 < i < |s| && s[i] == ')'
  {
    hide Net;
  }

  /**
   Peels casts and parentheses until a bare expression is left, in at most one round
   per character, and returns it with its blanks collapsed; fails when the bare text has
   unmatched parentheses at both ends.
   */
  method StripCasts(expr: string) returns (r: Result<string, ()>, ghost layers: seq<Layer>, ghost core: string, ghost rounds: nat)
    ensures WrapOk(layers, core) && Wrap(layers, core) == Strip(expr) && Bare(core)
    ensures r == if Stuck(core) then Err(()) else Ok(Collapse(core))
    ensures r.Ok? ==> Bare(r.value) && !Stuck(r.value)
    ensures rounds <= |Strip(expr)| + 1
  {
    hide ClosesAt, Balanced, LeadingCast, WhollyParenthesised, Stuck, Strip, LayerOk, WrapOne, WrapOk, Wrap, Collapse;
    var previous: Option<string>, e := None, Strip(expr);
    layers, rounds := [], 0;
    StripShrinks(expr);
    WrapNothing(e);
    while previous != Some(e)
      invariant Trimmed(e, PySpace) && WrapOk(layers, e) && Wrap(layers, e) == Strip(expr)
      invariant rounds + |e| <= |Strip(expr)| + if previous == Some(e) then 1 else 0
      invariant previous == Some(e) ==> Bare(e) && !Stuck(e)
      decreases |e|, if previous == Some(e) then 0 else 1
    {
      previous, rounds := Some(e), rounds + 1;
      var round := PeelOnce(e);
      match round
      case Next(n) =>
        var l := RoundLayer(e, n);
        WrapInner(layers, l, n);
        layers := layers + [l];
        e := n;
      case Unchanged =>
      case Unbalanced =>
        NotWholeUnmatched(e);
        return Err(()), layers, e, rounds;
    }
    BareCollapsed(e);
    return Ok(Collapse(e)), layers, e, rounds;
  }

  /** Stripping what was stripped changes nothing: `core'` is what the second pass reaches. */
  lemma StripTwice(core: string, layers: seq<Layer>, core': string)
    requires Bare(core) && !Stuck(core)
    requires WrapOk(layers, core') && Bare(core') && Wrap(layers, core') == Strip(Collapse(core))
    ensures core' == Collapse(core) && !Stuck(core') && Collapse(core') == Collapse(core)
  {
    hide Wrap, WrapOk, Collapse, LeadingCast, WhollyParenthesised, Stuck, Strip;
    var c := Collapse(core);
    BareCollapsed(core);
    StripTrimmed(c);
    WrapNothing(c);
    CoreUnique(layers, core', [], c);
    CollapseKeeps(core);
    CollapseTwice(c);
  }

  lemma StripTrimmed(s: string)
    requires Trimmed(s, PySpace)
    ensures Strip(s) == s
  {
    TrimIdempotent(s, PySpace);
  }

  /** A plain name: no parentheses and no blanks. */
  predicate PlainName(e: string) {
    e != "" && forall c :: c in e ==> c != '(' && c != ')' && !PySpace(c)
  }

  lemma {:induction false} NameKept(e: string)
    requires forall c :: c in e ==> !PySpace(c)
    ensures Collapse(e) == e
  {
    if e != "" {
      assert e[0] in e;
      NameKept(e[1..]);
    }
  }

  /** Casts and parentheses cannot hide a name such as NULL, however many wrap it. */
  lemma CastsCannotHide(wrapping: seq<Layer>, name: string, layers: seq<Layer>, core: string)
    requires PlainName(name) && WrapOk(wrapping, name)
    requires WrapOk(layers, core) && Bare(core) && Wrap(layers, core) == Wrap(wrapping, name)
    ensures core == name && !Stuck(core) && Collapse(core) == name
  {
    hide Wrap, WrapOk, Collapse;
    assert name[0] in name && name[|name| - 1] in name;
    CoreUnique(wrapping, name, layers, core);
    NameKept(name);
  }

  /** A qualified pointer type. */
  lemma PointerType(a: string, b: string)
    requires a != "" && SmallName(a) && SmallName(b)
    ensures TypeText(a + " " + b + " *")
  {
    hide PySpace, TrimLeft;
    PlainChars();
    var t := a + " " + b + " *";
    assert t[0] == a[0] && a[0] in a;
    forall c | c in t ensures CastChar(c) {
      assert c in a || c == ' ' || c in b || c == '*';
    }
    assert "" + t == t;
    SmallSolid(t[0]);
    TrimLeftOf("", t, PySpace);
  }

  lemma SmallSolid(c: char)
    requires 'a' <= c <= 'z' || c == '_'
    ensures !PySpace(c)
  {
  }

  /** The type and the text of the documented example. */
  const EpvalPointer: string := "const" + " " + "proxy_epval_t" + " *"
  const CastNull: string := "(" + EpvalPointer + ")" + " " + "(NULL)"

  predicate SmallName(s: string) {
    forall c :: c in s ==> 'a' <= c <= 'z' || c == '_'
  }

  /** The documented example: a cast and parentheses around NULL. */
  lemma DocumentedExample()
    ensures var layers := [Cast(EpvalPointer, " "), Parens("", "")];
            WrapOk(layers, "NULL") && Wrap(layers, "NULL") == CastNull
  {
    hide TypeText, Balanced, PySpace;
    var a, b := Cast(EpvalPointer, " "), Parens("", "");
    PointerType("const", "proxy_epval_t");
    FlatBalanced("NULL");
    PlainChars();
    assert [a, b][1..] == [b] && [b][1..] == [] && Wrap([], "NULL") == "NULL";
    assert Wrap([b], "NULL") == "(" + "" + "NULL" + "" + ")";
    assert Wrap([b], "NULL") == "(NULL)";
    assert WrapOk([b], "NULL");
  }

  lemma PlainChars()
    ensures PySpace(' ') && !PySpace('N') && !PySpace('L') && !PySpace('(') && !PySpace(')')
  {
  }

  lemma FlatBalanced(s: string)
    requires '(' !in s && ')' !in s
    ensures Balanced(s)
  {
    FlatNet(s);
    forall k | 0 <= k <= |s| ensures Net(s[..k], Paren) >= 0 { FlatNet(s[..k]); }
  }
}
