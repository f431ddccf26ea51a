/**
 Strings as the modelled programs use them: leftmost search, splitting and joining
 on a separator character, trimming, and decimal numbers.
 */
module Text {

  datatype Option<+T> = None | Some(value: T)

  datatype Result<+T, +E> = Ok(value: T) | Err(error: E)

  // ----- Leftmost search

  predicate At(s: string, pat: string, i: nat) {
    i + |pat| <= |s| && s[i..i + |pat|] == pat
  }

  lemma AtTail(s: string, pat: string, i: nat)
    requires s != ""
    ensures At(s, pat, i + 1) <==> At(s[1..], pat, i)
  {
    if i + 1 + |pat| <= |s| {
      assert s[i + 1..i + 1 + |pat|] == s[1..][i..i + |pat|];
    }
  }

  /** Index of the first occurrence of `pat` at or after `from`, or -1. */
  function Find(s: string, pat: string, from: nat): (r: int)
    ensures r >= 0 ==> from <= r && At(s, pat, r)
    ensures forall i: nat :: from <= i && (r < 0 || i < r) ==> !At(s, pat, i)
    ensures r >= -1
    decreases |s| - from
  {
    if At(s, pat, from) then from
    else if from >= |s| then -1
    else Find(s, pat, from + 1)
  }

  lemma CutAt<T>(s: seq<T>, e: nat)
    requires e < |s|
    ensures s == s[..e] + [s[e]] + s[e + 1..]
  {
  }

  lemma SliceOfSlice<T>(s: seq<T>, a: nat, b: nat, c: nat, d: nat)
    requires a <= b <= |s| && c <= d <= b - a
    ensures s[a..b][c..d] == s[a + c..a + d]
  {
    forall i | 0 <= i < d - c ensures s[a..b][c..d][i] == s[a + c..a + d][i] {
      assert s[a..b][c + i] == s[a + c + i];
    }
  }

  // ----- Split and join on one character

  function Split(s: string, sep: char): (parts: seq<string>)
    ensures |parts| > 0
  {
    if s == "" then [""]
    else
      var rest := Split(s[1..], sep);
      if s[0] == sep then [""] + rest else [[s[0]] + rest[0]] + rest[1..]
  }

  function Join(parts: seq<string>, sep: char): string
    requires |parts| > 0
  {
    if |parts| == 1 then parts[0] else parts[0] + [sep] + Join(parts[1..], sep)
  }

  lemma {:induction false} SplitOfField(field: string, rest: string, sep: char)
    requires sep !in field
    ensures Split(field, sep) == [field]
    ensures Split(field + [sep] + rest, sep) == [field] + Split(rest, sep)
  {
    if field == "" {
      assert (field + [sep] + rest)[1..] == rest;
    } else {
      SplitOfField(field[1..], rest, sep);
      assert field == [field[0]] + field[1..];
      assert (field + [sep] + rest)[1..] == field[1..] + [sep] + rest;
    }
  }

  /** Splitting undoes joining. */
  lemma {:induction false} SplitOfJoin(parts: seq<string>, sep: char)
    requires |parts| > 0
    requires forall p :: p in parts ==> sep !in p
    ensures Split(Join(parts, sep), sep) == parts
  {
    if |parts| == 1 {
      SplitOfField(parts[0], "", sep);
    } else {
      SplitOfJoin(parts[1..], sep);
      SplitOfField(parts[0], Join(parts[1..], sep), sep);
    }
  }

  /** Joining undoes splitting, and no field holds the separator. */
  lemma {:induction false} JoinOfSplit(s: string, sep: char)
    ensures Join(Split(s, sep), sep) == s
    ensures forall p :: p in Split(s, sep) ==> sep !in p
  {
    if s != "" {
      JoinOfSplit(s[1..], sep);
      var rest := Split(s[1..], sep);
      var parts := Split(s, sep);
      if s[0] == sep {
        assert parts[1..] == rest;
      } else if |rest| > 1 {
        assert parts[1..] == rest[1..];
      }
    }
  }

  // ----- Trimming

  function TrimLeft(s: string, blank: char -> bool): (r: string)
    ensures r == "" || !blank(r[0])
    ensures |r| <= |s| && r == s[|s| - |r|..]
    ensures AllBlank(s[..|s| - |r|], blank)
  {
    if s != "" && blank(s[0]) then
      var r := TrimLeft(s[1..], blank);
      assert s[..|s| - |r|] == [s[0]] + s[1..][..|s| - 1 - |r|];
      r
    else s
  }

  function TrimRight(s: string, blank: char -> bool): (r: string)
    ensures r == "" || !blank(r[|r| - 1])
    ensures |r| <= |s| && r == s[..|r|]
    ensures AllBlank(s[|r|..], blank)
  {
    if s != "" && blank(s[|s| - 1]) then
      var r := TrimRight(s[..|s| - 1], blank);
      assert s[|r|..] == s[..|s| - 1][|r|..] + [s[|s| - 1]];
      r
    else s
  }

  function Trim(s: string, blank: char -> bool): string {
    TrimRight(TrimLeft(s, blank), blank)
  }

  predicate Trimmed(s: string, blank: char -> bool) {
    s == "" || (!blank(s[0]) && !blank(s[|s| - 1]))
  }

  /** Trimming yields a trimmed string between two runs of blanks. */
  lemma TrimSpec(s: string, blank: char -> bool) returns (l: string, r: string)
    ensures Trimmed(Trim(s, blank), blank)
    ensures s == l + Trim(s, blank) + r && AllBlank(l, blank) && AllBlank(r, blank)
  {
    var a := TrimLeft(s, blank);
    l := s[..|s| - |a|];
    assert s == l + a;
    r := TrimRightSpec(a, blank);
    ConcatAssoc(l, Trim(s, blank), r);
  }

  lemma ConcatAssoc<T>(a: seq<T>, b: seq<T>, c: seq<T>)
    ensures a + (b + c) == a + b + c
  {
  }

  lemma TrimRightSpec(a: string, blank: char -> bool) returns (r: string)
    requires a == "" || !blank(a[0])
    ensures var t := TrimRight(a, blank); Trimmed(t, blank) && a == t + r
    ensures AllBlank(r, blank)
  {
    r := a[|TrimRight(a, blank)|..];
  }

  predicate AllBlank(s: string, blank: char -> bool) {
    forall c :: c in s ==> blank(c)
  }

  lemma {:induction false} TrimLeftOf(l: string, s: string, blank: char -> bool)
    requires AllBlank(l, blank) && (s == "" || !blank(s[0]))
    ensures TrimLeft(l + s, blank) == s
  {
    if l == "" {
      assert l + s == s;
    } else {
      assert (l + s)[1..] == l[1..] + s;
      assert l[0] in l;
      TrimLeftOf(l[1..], s, blank);
    }
  }

  lemma {:induction false} TrimRightOf(s: string, r: string, blank: char -> bool)
    requires AllBlank(r, blank) && (s == "" || !blank(s[|s| - 1]))
    ensures TrimRight(s + r, blank) == s
  {
    if r == "" {
      assert s + r == s;
    } else {
      assert (s + r)[..|s + r| - 1] == s + r[..|r| - 1];
      assert r[|r| - 1] in r;
      TrimRightOf(s, r[..|r| - 1], blank);
    }
  }

  lemma BlankJoined(l: string, r: string, blank: char -> bool)
    requires AllBlank(l, blank) && AllBlank(r, blank)
    ensures AllBlank(l + r, blank)
  {
  }

  /** Trimming finds exactly the trimmed string between the blanks. */
  lemma TrimOf(l: string, s: string, r: string, blank: char -> bool)
    requires AllBlank(l, blank) && AllBlank(r, blank) && Trimmed(s, blank)
    ensures Trim(l + s + r, blank) == s
  {
    hide TrimLeft, TrimRight;
    if s == "" {
      BlankJoined(l, r, blank);
      TrimLeftOf(l + r, "", blank);
      TrimRightOf("", "", blank);
      assert l + s + r == l + r + "";
      assert "" + "" == "";
    } else {
      ConcatAssoc(l, s, r);
      TrimLeftOf(l, s + r, blank);
      TrimRightOf(s, r, blank);
    }
  }

  lemma TrimIdempotent(s: string, blank: char -> bool)
    requires Trimmed(s, blank)
    ensures Trim(s, blank) == s
  {
    TrimOf("", s, "", blank);
    assert "" + s + "" == s;
  }

  // ----- Decimal numbers

  function DigitChar(d: nat): (c: char)
    requires d < 10
  {
    "0123456789"[d]
  }

  predicate IsDigit(c: char) {
    '0' <= c <= '9'
  }

  function DigitValue(c: char): (d: nat)
    requires IsDigit(c)
    ensures d < 10
  {
    c as int - '0' as int
  }

  predicate AllDigits(s: string) {
    forall c :: c in s ==> IsDigit(c)
  }

  /** The decimal rendering without leading zeros. */
  function Decimal(n: nat): (s: string)
    ensures s != "" && AllDigits(s)
  {
    if n < 10 then [DigitChar(n)] else Decimal(n / 10) + [DigitChar(n % 10)]
  }

  /** The number a string of digits denotes; leading zeros are allowed. */
  function DecimalValue(s: string): nat
    requires AllDigits(s)
  {
    if s == "" then 0
    else 10 * DecimalValue(s[..|s| - 1]) + DigitValue(s[|s| - 1])
  }

  /** Reading a rendering gives the number back. */
  lemma {:induction false} DecimalRoundTrip(n: nat)
    ensures DecimalValue(Decimal(n)) == n
  {
    var s := Decimal(n);
    if n < 10 {
      assert s[..|s| - 1] == "";
    } else {
      assert s[..|s| - 1] == Decimal(n / 10);
      DecimalRoundTrip(n / 10);
    }
  }

  /** No leading zero, except in "0" itself. */
  predicate Canonical(s: string) {
    s != "" && AllDigits(s) && (s[0] == '0' ==> |s| == 1)
  }

  lemma {:induction false} ValuePositive(s: string)
    requires s != "" && AllDigits(s) && s[0] != '0'
    ensures DecimalValue(s) > 0
  {
    if |s| > 1 { ValuePositive(s[..|s| - 1]); }
  }

  /** The canonical strings are exactly the renderings. */
  lemma {:induction false} CanonicalIsRendering(s: string)
    requires s != "" && AllDigits(s)
    ensures Decimal(DecimalValue(s)) == s <==> Canonical(s)
  {
    if |s| > 1 && s[0] == '0' {
      RenderingStart(DecimalValue(s));
    } else {
      RenderingOfValue(s);
    }
  }

  lemma {:induction false} RenderingOfValue(s: string)
    requires Canonical(s)
    ensures Decimal(DecimalValue(s)) == s
  {
    var init, last := s[..|s| - 1], s[|s| - 1];
    assert s == init + [last];
    assert DigitChar(DigitValue(last)) == last;
    if |s| == 1 {
      assert DecimalValue(init) == 0;
    } else {
      RenderingOfValue(init);
      ValuePositive(init);
      var v := DecimalValue(s);
      assert v / 10 == DecimalValue(init) && v % 10 == DigitValue(last);
    }
  }

  lemma {:induction false} RenderingStart(n: nat)
    ensures Decimal(n)[0] == '0' ==> n == 0 && |Decimal(n)| == 1
  {
    if n >= 10 { RenderingStart(n / 10); }
  }
}
