/**
 Which parenthesised texts are casts (the pattern of `strip_casts` of
 scripts/check_conv_pool_identity.py), said with the characters and names of C types.
 */
module CTypes {
  import opened Text
  import opened CallArguments
  import opened CastPeeling

  predicate Letter(c: char) {
    'A' <= c <= 'Z' || 'a' <= c <= 'z' || c == '_'
  }

  predicate Digit(c: char) {
    '0' <= c <= '9'
  }

  /** Letters, digits, blanks and stars, where a letter comes first after blanks. */
  ghost predicate CastLike(t: string) {
    && (forall c :: c in t ==> Letter(c) || Digit(c) || PySpace(c) || c == '*')
    && exists k :: LetterAfterBlanks(t, k)
  }

  predicate LetterAfterBlanks(t: string, k: int) {
    0 <= k < |t| && Letter(t[k]) && forall i :: 0 <= i < k ==> PySpace(t[i])
  }

  lemma LetterSolid(c: char)
    requires Letter(c)
    ensures !PySpace(c)
  {
  }

  /** The first character after the blanks. */
  lemma FirstLetter(t: string)
    ensures var u := TrimLeft(t, PySpace);
            (exists k :: LetterAfterBlanks(t, k)) <==> u != "" && Letter(u[0])
  {
    hide PySpace, TrimLeft;
    var u := TrimLeft(t, PySpace);
    var r := |t| - |u|;
    if u != "" && Letter(u[0]) {
      forall i | 0 <= i < r ensures PySpace(t[i]) { assert t[i] in t[..r]; }
      assert LetterAfterBlanks(t, r);
    }
    if k :| LetterAfterBlanks(t, k) {
      LetterSolid(t[k]);
      assert AllBlank(t[..k], PySpace);
      assert t == t[..k] + t[k..];
      TrimLeftOf(t[..k], t[k..], PySpace);
    }
  }

  lemma TypeTextExactly(t: string)
    ensures TypeText(t) <==> CastLike(t)
  {
    hide PySpace, TrimLeft, LetterAfterBlanks;
    FirstLetter(t);
    assert forall c :: CastChar(c) <==> Letter(c) || Digit(c) || PySpace(c) || c == '*';
  }

  /** A text opens with a cast exactly when its first parentheses hold such a text and something follows. */
  lemma CastExactly(t: string, rest: string)
    requires ')' !in t
    ensures LeadingCast("(" + t + ")" + rest) <==> rest != "" && CastLike(t)
  {
    hide TypeText, CastLike;
    var e, p := "(" + t + ")" + rest, |t| + 1;
    TypeTextExactly(t);
    assert e[p] == ')' && e[1..p] == t;
    forall q: nat | CastTo(e, q) ensures q == p {
      CastEnds(e, q);
      assert e[..p] == "(" + t;
      FirstClosingIs(e, p);
    }
    assert CastTo(e, p) <==> rest != "" && TypeText(t);
  }

  // ----- Names of types

  /** Words with blanks or stars between them, and perhaps after the last. */
  datatype TypeName = Last(word: string, after: string) | Then(word: string, between: string, rest: TypeName)

  /** Letters, digits and underscores, not starting with a digit. */
  predicate Word(w: string) {
    w != "" && Letter(w[0]) && forall c :: c in w ==> Letter(c) || Digit(c)
  }

  predicate Gap(g: string) {
    forall c :: c in g ==> PySpace(c) || c == '*'
  }

  predicate NameOk(t: TypeName) {
    match t
    case Last(word, after) => Word(word) && Gap(after)
    case Then(word, between, rest) => Word(word) && Gap(between) && between != "" && NameOk(rest)
  }

  function Spelt(t: TypeName): string {
    match t
    case Last(word, after) => word + after
    case Then(word, between, rest) => word + between + Spelt(rest)
  }

  lemma {:induction false} NameCastLike(t: TypeName)
    requires NameOk(t)
    ensures CastLike(Spelt(t)) && Spelt(t) != "" && Letter(Spelt(t)[0])
  {
    hide PySpace;
    if t.Then? { NameCastLike(t.rest); }
    assert Spelt(t)[0] == t.word[0];
    assert LetterAfterBlanks(Spelt(t), 0);
  }

  /**
   However a type is named, a cast to it is peeled off: what is left of the cast
   expression is what is left of the expression itself.
   */
  lemma CastPeeled(t: TypeName, gap: string, layers: seq<Layer>, core: string, layers': seq<Layer>, core': string)
    requires NameOk(t) && AllBlank(gap, PySpace)
    requires WrapOk(layers, core) && Bare(core) && Wrap(layers, core) != "" && Trimmed(Wrap(layers, core), PySpace)
    requires WrapOk(layers', core') && Bare(core')
    requires Wrap(layers', core') == "(" + Spelt(t) + ")" + gap + Wrap(layers, core)
    ensures core' == core
  {
    hide TypeText, CastLike, NameOk, Spelt, Bare, PySpace;
    var cast := Cast(Spelt(t), gap);
    NameCastLike(t);
    TypeTextExactly(Spelt(t));
    assert ([cast] + layers)[1..] == layers;
    assert WrapOk([cast] + layers, core);
    CoreUnique(layers', core', [cast] + layers, core);
  }
}
