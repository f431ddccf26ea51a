/**
 Band triples (common/fc_queue.go): three numbers written critical:standard:sheddable
 and stored by band index, with the empty string for three zeros.
 */
module BandTriple {
  import opened Text

  const BANDS: nat := 3
  const STANDARD: nat := 0
  const CRITICAL: nat := 1
  const SHEDDABLE: nat := 2

  /** The band at each position of the written form. */
  const WIRE_ORDER: seq<nat> := [CRITICAL, STANDARD, SHEDDABLE]

  const UINT32: nat := 0x1_0000_0000

  /** Three numbers indexed by band. */
  type Triple = t: seq<nat> | |t| == BANDS witness [0, 0, 0]

  const ZEROS: Triple := [0, 0, 0]

  datatype Error = Malformed | OutOfRange

  /** An unsigned decimal number of at most 32 bits. */
  function ParseUint(s: string): Option<nat> {
    if s != "" && AllDigits(s) && DecimalValue(s) < UINT32 then Some(DecimalValue(s)) else None
  }

  /** What reading one position reports, if it is refused. */
  function Refusal(part: string, limit: nat): Option<Error> {
    var n := ParseUint(part);
    if n.None? then Some(Malformed) else if n.value > limit then Some(OutOfRange) else None
  }

  /** The first refusal from position `i` on. */
  function FirstRefusal(parts: seq<string>, i: nat, limit: nat): Option<Error>
    requires i <= |parts|
    decreases |parts| - i
  {
    if i == |parts| then None
    else if Refusal(parts[i], limit).Some? then Refusal(parts[i], limit)
    else FirstRefusal(parts, i + 1, limit)
  }

  /** `r` is the right answer for the text `v`. */
  ghost predicate Parses(v: string, limit: nat, r: Result<Triple, Error>) {
    var parts := Split(v, ':');
    if v == "" then r == Ok(ZEROS)
    else if |parts| != BANDS then r == Err(Malformed)
    else if FirstRefusal(parts, 0, limit).Some? then r == Err(FirstRefusal(parts, 0, limit).value)
    else r.Ok? && forall i :: 0 <= i < BANDS ==> ParseUint(parts[i]) == Some(r.value[WIRE_ORDER[i]])
  }

  method FcBandTripleParse(v: string, limit: nat) returns (r: Result<Triple, Error>)
    requires limit < UINT32
    ensures Parses(v, limit, r)
  {
    hide ParseUint, Split;
    var t: Triple := ZEROS;
    if v == "" {
      return Ok(t);
    }
    var parts := Split(v, ':');
    if |parts| != BANDS {
      return Err(Malformed);
    }
    for i := 0 to BANDS
      invariant FirstRefusal(parts, 0, limit) == FirstRefusal(parts, i, limit)
      invariant forall k :: 0 <= k < i ==> ParseUint(parts[k]) == Some(t[WIRE_ORDER[k]])
    {
      var n := ParseUint(parts[i]);
      if n.None? {
        return Err(Malformed);
      }
      if n.value > limit {
        return Err(OutOfRange);
      }
      t := t[WIRE_ORDER[i] := n.value];
    }
    r := Ok(t);
  }

  /** The written form. */
  function Written(t: Triple): string {
    if t == ZEROS then ""
    else Join([Decimal(t[CRITICAL]), Decimal(t[STANDARD]), Decimal(t[SHEDDABLE])], ':')
  }

  method FcBandTripleFormat(t: Triple) returns (s: string)
    ensures s == Written(t)
  {
    hide Decimal, Join;
    if t == ZEROS {
      return "";
    }
    var parts := ["", "", ""];
    for i := 0 to BANDS
      invariant |parts| == BANDS && forall k :: 0 <= k < i ==> parts[k] == Decimal(t[WIRE_ORDER[k]])
    {
      parts := parts[i := Decimal(t[WIRE_ORDER[i]])];
    }
    assert parts == [Decimal(t[CRITICAL]), Decimal(t[STANDARD]), Decimal(t[SHEDDABLE])];
    s := Join(parts, ':');
  }

  /** When a number is refused, and how. */
  lemma RefusalExactly(part: string, limit: nat)
    requires limit < 4294967296
    ensures Refusal(part, limit) == Some(Malformed) <==>
            part == "" || (exists c :: c in part && !('0' <= c <= '9')) || DecimalValue(part) >= 4294967296
    ensures Refusal(part, limit) == Some(OutOfRange) <==>
            part != "" && AllDigits(part) && limit < DecimalValue(part) < 4294967296
  {
  }

  /** Written critical, standard, sheddable; stored standard, critical, sheddable. */
  lemma WireOrder(critical: nat, standard: nat, sheddable: nat, limit: nat)
    requires critical <= limit && standard <= limit && sheddable <= limit < UINT32
    ensures Parses(Decimal(critical) + ":" + Decimal(standard) + ":" + Decimal(sheddable), limit,
                   Ok([standard, critical, sheddable]))
  {
    hide Decimal, ParseUint, Refusal, Split, Join, FirstRefusal;
    var parts := [Decimal(critical), Decimal(standard), Decimal(sheddable)];
    NumberRead(critical, limit);
    NumberRead(standard, limit);
    NumberRead(sheddable, limit);
    SplitOfJoin(parts, ':');
    NoneRefused(parts, limit);
    JoinThree(parts[0], parts[1], parts[2]);
  }

  lemma JoinThree(a: string, b: string, c: string)
    ensures Join([a, b, c], ':') == a + ":" + b + ":" + c
  {
    assert [b, c][1..] == [c] && [a, b, c][1..] == [b, c];
    assert Join([c], ':') == c;
    assert Join([b, c], ':') == b + ":" + c;
    assert Join([a, b, c], ':') == a + ":" + (b + ":" + c);
  }

  predicate Number(s: string) {
    s != "" && AllDigits(s)
  }

  /** `v` spells the numbers `a`, `b` and `c` with colons between them, none above the limit. */
  predicate Spells(v: string, a: string, b: string, c: string, limit: nat) {
    && Number(a) && Number(b) && Number(c) && v == a + ":" + b + ":" + c
    && DecimalValue(a) <= limit && DecimalValue(b) <= limit && DecimalValue(c) <= limit
  }

  lemma NumberPart(a: string, limit: nat)
    requires limit < UINT32
    ensures Refusal(a, limit).None? <==> Number(a) && DecimalValue(a) <= limit
    ensures Refusal(a, limit).None? ==> ParseUint(a) == Some(DecimalValue(a)) && ':' !in a
  {
    assert !IsDigit(':');
  }

  /** A text that is not empty is accepted exactly when it spells three numbers, and the triple holds them by band. */
  lemma AcceptedExactly(v: string, limit: nat, t: Triple)
    requires limit < UINT32 && v != ""
    ensures Parses(v, limit, Ok(t)) <==>
            exists a: string, b: string, c: string ::
              Spells(v, a, b, c, limit) && t == [DecimalValue(b), DecimalValue(a), DecimalValue(c)]
  {
    hide Split, Join, ParseUint, Refusal, DecimalValue, AllDigits;
    if Parses(v, limit, Ok(t)) {
      var p := Split(v, ':');
      NotRefused(p, 0, limit);
      NumberPart(p[0], limit);
      NumberPart(p[1], limit);
      NumberPart(p[2], limit);
      JoinOfSplit(v, ':');
      assert p == [p[0], p[1], p[2]];
      JoinThree(p[0], p[1], p[2]);
      assert ParseUint(p[0]) == Some(t[WIRE_ORDER[0]]) && ParseUint(p[1]) == Some(t[WIRE_ORDER[1]])
          && ParseUint(p[2]) == Some(t[WIRE_ORDER[2]]);
      assert Spells(v, p[0], p[1], p[2], limit);
      assert t == [t[0], t[1], t[2]];
    }
    if a: string, b: string, c: string :|
      Spells(v, a, b, c, limit) && t == [DecimalValue(b), DecimalValue(a), DecimalValue(c)] {
      var p := [a, b, c];
      NumberPart(a, limit);
      NumberPart(b, limit);
      NumberPart(c, limit);
      JoinThree(a, b, c);
      SplitOfJoin(p, ':');
      NoneRefused(p, limit);
    }
  }

  // ----- Round trips

  predicate Within(t: Triple, limit: nat) {
    t[STANDARD] <= limit && t[CRITICAL] <= limit && t[SHEDDABLE] <= limit
  }

  /** There is only one right answer. */
  lemma ParsesOnce(v: string, limit: nat, a: Result<Triple, Error>, b: Result<Triple, Error>)
    requires Parses(v, limit, a) && Parses(v, limit, b)
    ensures a == b
  {
    hide Split, ParseUint, FirstRefusal;
    if a.Ok? && b.Ok? && v != "" {
      assert a.value[WIRE_ORDER[0]] == b.value[WIRE_ORDER[0]];
      assert a.value[WIRE_ORDER[1]] == b.value[WIRE_ORDER[1]];
      assert a.value[WIRE_ORDER[2]] == b.value[WIRE_ORDER[2]];
      assert a.value == b.value;
    }
  }

  lemma NumberRead(n: nat, limit: nat)
    requires n <= limit < UINT32
    ensures ParseUint(Decimal(n)) == Some(n) && Refusal(Decimal(n), limit).None? && ':' !in Decimal(n)
  {
    DecimalRoundTrip(n);
  }

  /** Reading the written form of a triple gives it back, despite the permuted order. */
  lemma ParseOfWritten(t: Triple, limit: nat)
    requires limit < UINT32 && Within(t, limit)
    ensures Parses(Written(t), limit, Ok(t))
  {
    hide Decimal, ParseUint, Refusal;
    if t != ZEROS {
      var parts := [Decimal(t[CRITICAL]), Decimal(t[STANDARD]), Decimal(t[SHEDDABLE])];
      NumberRead(t[CRITICAL], limit);
      NumberRead(t[STANDARD], limit);
      NumberRead(t[SHEDDABLE], limit);
      SplitOfJoin(parts, ':');
      NoneRefused(parts, limit);
      assert Written(t) != "" by { WrittenNotEmpty(t); }
    }
  }

  lemma NoneRefused(parts: seq<string>, limit: nat)
    requires |parts| == BANDS && forall i :: 0 <= i < BANDS ==> Refusal(parts[i], limit).None?
    ensures FirstRefusal(parts, 0, limit).None?
  {
    hide Refusal;
    assert FirstRefusal(parts, 3, limit).None?;
    assert FirstRefusal(parts, 2, limit).None?;
    assert FirstRefusal(parts, 1, limit).None?;
  }

  lemma WrittenNotEmpty(t: Triple)
    requires t != ZEROS
    ensures Written(t) != ""
  {
  }

  lemma {:induction false} NotRefused(parts: seq<string>, i: nat, limit: nat)
    requires i <= |parts| && FirstRefusal(parts, i, limit).None?
    ensures forall k :: i <= k < |parts| ==> Refusal(parts[k], limit).None?
    decreases |parts| - i
  {
    hide Refusal;
    if i < |parts| { NotRefused(parts, i + 1, limit); }
  }

  lemma AcceptedWithin(v: string, limit: nat, t: Triple)
    requires limit < UINT32 && Parses(v, limit, Ok(t))
    ensures Within(t, limit)
  {
    hide ParseUint;
    if v != "" {
      var parts := Split(v, ':');
      NotRefused(parts, 0, limit);
      assert ParseUint(parts[0]) == Some(t[WIRE_ORDER[0]]) && Refusal(parts[0], limit).None?;
      assert ParseUint(parts[1]) == Some(t[WIRE_ORDER[1]]) && Refusal(parts[1], limit).None?;
      assert ParseUint(parts[2]) == Some(t[WIRE_ORDER[2]]) && Refusal(parts[2], limit).None?;
    }
  }

  /** Whatever text was accepted, writing the result and reading it again changes nothing. */
  lemma RewrittenParsesSame(v: string, limit: nat, t: Triple)
    requires limit < UINT32 && Parses(v, limit, Ok(t))
    ensures Parses(Written(t), limit, Ok(t))
  {
    AcceptedWithin(v, limit, t);
    ParseOfWritten(t, limit);
  }

  /** An accepted text is the written form exactly when it has no leading zeros and is not three zeros spelt out. */
  lemma WrittenExactly(v: string, limit: nat, t: Triple)
    requires limit < UINT32 && Parses(v, limit, Ok(t)) && v != ""
    ensures Written(t) == v <==> t != ZEROS && forall p :: p in Split(v, ':') ==> Canonical(p)
  {
    hide Decimal, DecimalValue, Split, Refusal;
    var parts := Split(v, ':');
    JoinOfSplit(v, ':');
    assert ParseUint(parts[0]) == Some(t[WIRE_ORDER[0]]);
    assert ParseUint(parts[1]) == Some(t[WIRE_ORDER[1]]);
    assert ParseUint(parts[2]) == Some(t[WIRE_ORDER[2]]);
    CanonicalIsRendering(parts[0]);
    CanonicalIsRendering(parts[1]);
    CanonicalIsRendering(parts[2]);
    var ws := [Decimal(t[CRITICAL]), Decimal(t[STANDARD]), Decimal(t[SHEDDABLE])];
    forall n: nat ensures ':' !in Decimal(n) { NoColon(n); }
    SplitOfJoin(ws, ':');
    assert ws == parts <==> forall p :: p in parts ==> Canonical(p);
  }

  lemma NoColon(n: nat)
    ensures ':' !in Decimal(n)
  {
  }
}
