/**
 The CORS origin allowlist (common/cors.go): unconfigured means open, configured
 means exactly the listed origins or an explicit wildcard.
 */
module Cors {
  import opened Text

  /** Whitespace in the sense of Go's strings.TrimSpace. */
  predicate GoSpace(c: char) {
    var u := c as int;
    || 0x09 <= u <= 0x0D || u == 0x20 || u == 0x85 || u == 0xA0 || u == 0x1680
    || 0x2000 <= u <= 0x200A || u == 0x2028 || u == 0x2029 || u == 0x202F || u == 0x205F || u == 0x3000
  }

  /** The characters for which Go's unicode.IsSpace holds. */
  const BLANKS: seq<char> := [
    '\t', '\n', '\U{0B}', '\U{0C}', '\r', ' ',
    '\U{85}', '\U{A0}', '\U{1680}', '\U{2000}', '\U{2001}', '\U{2002}', '\U{2003}', '\U{2004}', '\U{2005}', '\U{2006}',
    '\U{2007}', '\U{2008}', '\U{2009}', '\U{200A}', '\U{2028}', '\U{2029}', '\U{202F}', '\U{205F}', '\U{3000}']

  lemma GoSpaceExactly(c: char)
    ensures GoSpace(c) <==> c in BLANKS
  {
  }

  function Normalized(origin: string): string {
    Trim(origin, GoSpace)
  }

  /** An origin that may be stored. */
  predicate Storable(o: string) {
    o != "" && o != "*"
  }

  /** A configuration as exported: the origins in ascending order, or the wildcard. */
  datatype Config = Config(origins: seq<string>, wildcard: bool)

  datatype State = State(origins: set<string>, wildcard: bool, configured: bool)

  datatype Op =
    | Add(origin: string)
    | Remove(origin: string)
    | Set(config: Option<Config>)
    | Reset

  const FACTORY: State := State({}, false, false)

  /** Wildcard behaviour is active. */
  predicate Open(s: State) {
    !s.configured || s.wildcard
  }

  predicate Allowed(s: State, origin: string) {
    Open(s) || origin in s.origins
  }

  /** Refused operations leave the state alone. */
  predicate Accepted(s: State, op: Op) {
    match op
    case Add(origin) => Storable(Normalized(origin)) && (Open(s) || Normalized(origin) !in s.origins)
    case Remove(origin) => !Open(s) && Normalized(origin) in s.origins
    case Set(config) =>
      && config.Some? && !(config.value.wildcard && config.value.origins != [])
      && forall o :: o in config.value.origins ==> Storable(Normalized(o))
    case Reset => true
  }

  function Apply(s: State, op: Op): State {
    if !Accepted(s, op) then s
    else
      match op
      case Add(origin) => State((if Open(s) then {} else s.origins) + {Normalized(origin)}, false, true)
      case Remove(origin) => s.(origins := s.origins - {Normalized(origin)})
      case Set(config) => State(set o | o in config.value.origins :: Normalized(o), config.value.wildcard, true)
      case Reset => FACTORY
  }

  function Run(s: State, ops: seq<Op>): State {
    if ops == [] then s else Apply(Run(s, ops[..|ops| - 1]), ops[|ops| - 1])
  }

  /** What holds in every reachable state. */
  ghost predicate Inv(s: State) {
    && (s.wildcard ==> s.configured && s.origins == {})
    && (!s.configured ==> s.origins == {})
    && forall o :: o in s.origins ==> Storable(o) && Trimmed(o, GoSpace)
  }

  lemma NormalizedTrimmed(o: string)
    ensures Trimmed(Normalized(o), GoSpace)
  {
    var l, r := TrimSpec(o, GoSpace);
  }

  lemma ApplyKeepsInv(s: State, op: Op)
    requires Inv(s)
    ensures Inv(Apply(s, op))
  {
    hide Normalized;
    forall o: string ensures Trimmed(Normalized(o), GoSpace) { NormalizedTrimmed(o); }
  }

  /** Every state reached from the factory default is consistent. */
  lemma {:induction false} Reachable(ops: seq<Op>)
    ensures Inv(Run(FACTORY, ops))
  {
    hide Apply, Accepted;
    if ops != [] {
      Reachable(ops[..|ops| - 1]);
      ApplyKeepsInv(Run(FACTORY, ops[..|ops| - 1]), ops[|ops| - 1]);
    }
  }

  // ----- Adding and removing never reopens

  predicate Editing(ops: seq<Op>) {
    forall i :: 0 <= i < |ops| ==> ops[i].Add? || ops[i].Remove?
  }

  /** The last edit of an origin: added, removed, or never mentioned. */
  function LastEdit(ops: seq<Op>, o: string): Option<bool>
    requires Editing(ops)
  {
    if ops == [] then None
    else
      var op := ops[|ops| - 1];
      if Normalized(op.origin) == o then Some(op.Add?) else LastEdit(ops[..|ops| - 1], o)
  }

  /**
   From a configured allowlist, no run of additions and removals opens the gateway to
   everyone: a storable origin is allowed exactly when its last edit added it, or when
   it was listed and never edited; nothing else is allowed.
   */
  lemma {:induction false} NeverReopens(s: State, ops: seq<Op>, o: string)
    requires Inv(s) && !Open(s) && Editing(ops)
    ensures !Open(Run(s, ops))
    ensures Storable(o) ==>
              (Allowed(Run(s, ops), o) <==> match LastEdit(ops, o) case Some(added) => added case None => o in s.origins)
    ensures !Storable(o) ==> !Allowed(Run(s, ops), o)
  {
    hide Normalized;
    if ops != [] {
      NeverReopens(s, ops[..|ops| - 1], o);
    }
  }

  // ----- What each operation does to every origin

  /** `text` is the origin `o` with blanks around it. */
  ghost predicate Spells(text: string, o: string) {
    Trimmed(o, GoSpace) && exists l: string, r: string :: Surrounds(l, text, o, r)
  }

  predicate Surrounds(l: string, text: string, o: string, r: string) {
    AllBlank(l, GoSpace) && AllBlank(r, GoSpace) && text == l + o + r
  }

  lemma SpellsNormalized(text: string, o: string)
    ensures Spells(text, o) <==> Normalized(text) == o
  {
    if Spells(text, o) {
      var l, r :| Surrounds(l, text, o, r);
      TrimOf(l, o, r, GoSpace);
    }
    if Normalized(text) == o {
      var l, r := TrimSpec(text, GoSpace);
      assert Surrounds(l, text, o, r);
    }
  }

  /**
   Adding an origin ends wildcard behaviour, whatever was before: then it is allowed,
   and besides it exactly what an allowlist allowed already.
   */
  lemma AddCloses(s: State, text: string, o: string, x: string)
    requires Inv(s) && Spells(text, o) && o != "" && o != "*"
    ensures var after := Apply(s, Add(text));
            !Open(after) && (Allowed(after, x) <==> x == o || (!Open(s) && Allowed(s, x)))
  {
    hide Spells, Normalized;
    SpellsNormalized(text, o);
  }

  /** An empty origin and a bare star are never added. */
  lemma AddRefused(s: State, text: string)
    requires Spells(text, "") || Spells(text, "*")
    ensures !Accepted(s, Add(text)) && Apply(s, Add(text)) == s
  {
    hide Spells, Normalized;
    SpellsNormalized(text, "");
    SpellsNormalized(text, "*");
  }

  /** Removing an origin takes exactly it from an allowlist, and does nothing while everything is allowed. */
  lemma RemoveMeans(s: State, text: string, o: string, x: string)
    requires Inv(s) && Spells(text, o)
    ensures var after := Apply(s, Remove(text));
            && (Open(after) <==> Open(s))
            && (Allowed(after, x) <==> Open(s) || (Allowed(s, x) && x != o))
            && (Accepted(s, Remove(text)) <==> !Open(s) && Allowed(s, o))
  {
    hide Spells, Normalized;
    SpellsNormalized(text, o);
  }

  /** A configuration that can be set: no empty origin, no bare star, and no origins beside the wildcard. */
  ghost predicate Settable(config: Option<Config>) {
    && config.Some? && (config.value.wildcard ==> config.value.origins == [])
    && forall i :: 0 <= i < |config.value.origins| ==>
         !Spells(config.value.origins[i], "") && !Spells(config.value.origins[i], "*")
  }

  /** `x` is listed in a configuration. */
  ghost predicate Lists(config: Config, x: string) {
    exists i :: 0 <= i < |config.origins| && Spells(config.origins[i], x)
  }

  /** Setting a configuration replaces everything, or nothing when it cannot be set. */
  lemma SetMeans(s: State, config: Option<Config>, x: string)
    ensures var after := Apply(s, Set(config));
            && (Accepted(s, Set(config)) <==> Settable(config))
            && (!Settable(config) ==> after == s)
            && (Settable(config) ==> (Open(after) <==> config.value.wildcard))
            && (Settable(config) ==> (Allowed(after, x) <==> config.value.wildcard || Lists(config.value, x)))
  {
    hide Spells, Normalized;
    if config.Some? {
      var os := config.value.origins;
      forall i | 0 <= i < |os|
        ensures Spells(os[i], "") <==> Normalized(os[i]) == ""
        ensures Spells(os[i], "*") <==> Normalized(os[i]) == "*"
        ensures Spells(os[i], x) <==> Normalized(os[i]) == x
        ensures os[i] in os
      {
        SpellsNormalized(os[i], "");
        SpellsNormalized(os[i], "*");
        SpellsNormalized(os[i], x);
      }
    }
  }

  // ----- Wildcard behaviour over whole runs

  /** What an operation says about wildcard behaviour: nothing, off, or on. */
  ghost predicate TurnsOff(op: Op) {
    || (op.Add? && !Spells(op.origin, "") && !Spells(op.origin, "*"))
    || (op.Set? && Settable(op.config) && !op.config.value.wildcard)
  }

  ghost predicate TurnsOn(op: Op) {
    op.Reset? || (op.Set? && Settable(op.config) && op.config.value.wildcard)
  }

  lemma OpenStep(s: State, op: Op)
    requires Inv(s)
    ensures Open(Apply(s, op)) <==> TurnsOn(op) || (Open(s) && !TurnsOff(op))
  {
    hide Spells, Normalized, Inv;
    match op
    case Add(origin) =>
      var o := Normalized(origin);
      SpellsNormalized(origin, o);
      SpellsNormalized(origin, "");
      SpellsNormalized(origin, "*");
      if o != "" && o != "*" { AddCloses(s, origin, o, o); } else { AddRefused(s, origin); }
    case Remove(origin) =>
      SpellsNormalized(origin, Normalized(origin));
      RemoveMeans(s, origin, Normalized(origin), "");
    case Set(config) => SetMeans(s, config, "");
    case Reset =>
  }

  /**
   From the factory default, wildcard behaviour is active exactly when the last
   operation that says something about it turns it on, or when there is none.
   */
  lemma {:induction false} OpenExactly(ops: seq<Op>)
    ensures Open(Run(FACTORY, ops)) <==>
            forall i :: 0 <= i < |ops| && TurnsOff(ops[i]) ==> exists j :: i < j < |ops| && TurnsOn(ops[j])
  {
    hide Apply, TurnsOn, TurnsOff, Inv;
    if ops != [] {
      var n := |ops| - 1;
      var p := ops[..n];
      OpenExactly(p);
      Reachable(p);
      OpenStep(Run(FACTORY, p), ops[n]);
      NotBoth(ops[n]);
      if !TurnsOn(ops[n]) && !TurnsOff(ops[n]) {
        forall i | 0 <= i < n && TurnsOff(p[i]) && exists j :: i < j < |ops| && TurnsOn(ops[j])
          ensures exists j :: i < j < n && TurnsOn(p[j])
        {
          var j :| i < j < |ops| && TurnsOn(ops[j]);
          assert p[j] == ops[j];
        }
      }
      assert forall i :: 0 <= i < n ==> p[i] == ops[i];
    }
  }

  lemma NotBoth(op: Op)
    ensures !(TurnsOn(op) && TurnsOff(op))
  {
    hide Spells;
  }

  // ----- Export and import

  /** Order of strings by their characters. */
  predicate Less(a: string, b: string) {
    if b == "" then false
    else if a == "" then true
    else a[0] < b[0] || (a[0] == b[0] && Less(a[1..], b[1..]))
  }

  /** `a` and `b` agree before `i`, and there `a` ends or has the smaller character. */
  predicate DiffersAt(a: string, b: string, i: nat) {
    i <= |a| && i < |b| && a[..i] == b[..i] && (i == |a| || a[i] < b[i])
  }

  /** The order is decided at the first difference. */
  lemma {:induction false} LessExactly(a: string, b: string)
    ensures Less(a, b) <==> exists i: nat :: DiffersAt(a, b, i)
  {
    if a != "" && b != "" && a[0] == b[0] {
      LessExactly(a[1..], b[1..]);
      if i: nat :| DiffersAt(a[1..], b[1..], i) {
        assert a[..i + 1] == [a[0]] + a[1..][..i] && b[..i + 1] == [b[0]] + b[1..][..i];
        assert DiffersAt(a, b, i + 1);
      }
      if i: nat :| DiffersAt(a, b, i) {
        LaterDifference(a, b, i);
      }
    } else {
      forall i: nat | DiffersAt(a, b, i) ensures i == 0 || (a != "" && a[0] == b[0]) { SharedFirst(a, b, i); }
      assert Less(a, b) ==> DiffersAt(a, b, 0);
    }
  }

  lemma SharedFirst(a: string, b: string, i: nat)
    requires DiffersAt(a, b, i)
    ensures i == 0 || (a != "" && a[0] == b[0])
  {
    if i > 0 { assert a[..i][0] == b[..i][0]; }
  }

  lemma LaterDifference(a: string, b: string, i: nat)
    requires DiffersAt(a, b, i) && a != "" && a[0] == b[0]
    ensures i > 0 && DiffersAt(a[1..], b[1..], i - 1)
  {
    assert a[..i][1..] == a[1..][..i - 1] && b[..i][1..] == b[1..][..i - 1];
  }

  lemma {:induction false} LessTotal(a: string, b: string)
    ensures a != b ==> Less(a, b) || Less(b, a)
    ensures !(Less(a, b) && Less(b, a)) && !Less(a, a)
  {
    if a != "" && b != "" {
      LessTotal(a[1..], b[1..]);
      assert a == [a[0]] + a[1..] && b == [b[0]] + b[1..];
      LessTotal(a[1..], a[1..]);
    } else if a != "" {
      LessTotal(a[1..], b);
      LessTotal(a[1..], a[1..]);
    }
  }

  lemma {:induction false} LessTransitive(a: string, b: string, c: string)
    requires Less(a, b) && Less(b, c)
    ensures Less(a, c)
  {
    if a != "" && b != "" && c != "" && a[0] == b[0] == c[0] {
      LessTransitive(a[1..], b[1..], c[1..]);
    }
  }

  predicate Ascending(s: seq<string>) {
    forall i, j :: 0 <= i < j < |s| ==> Less(s[i], s[j])
  }

  /** An ascending list is determined by its elements. */
  lemma {:induction false} AscendingUnique(a: seq<string>, b: seq<string>)
    requires Ascending(a) && Ascending(b) && forall x :: x in a <==> x in b
    ensures a == b
  {
    if a == [] {
      HasMember(b);
    } else {
      assert a[0] in a && a[0] in b;
      FirstOfAscending(a, b);
      forall x ensures x in a[1..] <==> x in b[1..] {
        TailOfAscending(a, x);
        TailOfAscending(b, x);
      }
      AscendingUnique(a[1..], b[1..]);
      assert a == [a[0]] + a[1..] && b == [b[0]] + b[1..];
    }
  }

  lemma HasMember(b: seq<string>)
    ensures b != [] ==> exists x :: x in b
  {
    if b != [] { assert b[0] in b; }
  }

  lemma FirstOfAscending(a: seq<string>, b: seq<string>)
    requires Ascending(a) && Ascending(b) && a != [] && forall x :: x in a <==> x in b
    ensures b != [] && a[0] == b[0]
  {
    assert a[0] in b;
    var i :| 0 <= i < |b| && b[i] == a[0];
    assert b[0] in a;
    var j :| 0 <= j < |a| && a[j] == b[0];
    LessTotal(a[0], b[0]);
  }

  lemma TailOfAscending(a: seq<string>, x: string)
    requires Ascending(a) && a != []
    ensures x in a[1..] <==> x in a && x != a[0]
  {
    LessTotal(a[0], a[0]);
  }

  function Insert(x: string, s: seq<string>): seq<string> {
    if s == [] || Less(x, s[0]) then [x] + s else [s[0]] + Insert(x, s[1..])
  }

  lemma {:induction false} InsertSorted(x: string, s: seq<string>)
    requires Ascending(s) && x !in s
    ensures Ascending(Insert(x, s)) && forall y :: y in Insert(x, s) <==> y == x || y in s
  {
    if s != [] {
      LessTotal(x, s[0]);
      if Less(x, s[0]) {
        forall j | 0 <= j < |s| ensures Less(x, s[j]) {
          if j > 0 { LessTransitive(x, s[0], s[j]); }
        }
      } else {
        InsertSorted(x, s[1..]);
        var r := Insert(x, s[1..]);
        forall j | 0 <= j < |r| ensures Less(s[0], r[j]) {
          assert r[j] in r;
        }
        assert s == [s[0]] + s[1..];
      }
    }
  }

  function Sorted(s: seq<string>): seq<string> {
    if s == [] then [] else Insert(s[0], Sorted(s[1..]))
  }

  predicate Distinct(s: seq<string>) {
    forall i, j :: 0 <= i < j < |s| ==> s[i] != s[j]
  }

  lemma {:induction false} SortedAscending(s: seq<string>)
    requires Distinct(s)
    ensures Ascending(Sorted(s)) && forall y :: y in Sorted(s) <==> y in s
  {
    if s != [] {
      SortedAscending(s[1..]);
      assert s[0] !in s[1..];
      InsertSorted(s[0], Sorted(s[1..]));
      assert s == [s[0]] + s[1..];
    }
  }

  /** `r` is what a state exports: nothing, or its origins in ascending order. */
  ghost predicate Exports(s: State, r: Option<Config>) {
    if !s.configured then r.None?
    else r.Some? && r.value.wildcard == s.wildcard && Ascending(r.value.origins)
         && forall o :: o in r.value.origins <==> o in s.origins
  }

  /** Equal states export the same. */
  lemma ExportUnique(s: State, a: Option<Config>, b: Option<Config>)
    requires Exports(s, a) && Exports(s, b)
    ensures a == b
  {
    if s.configured { AscendingUnique(a.value.origins, b.value.origins); }
  }

  /** Importing what was exported, or resetting when nothing was, restores the state exactly. */
  lemma ExportRoundTrip(s: State, r: Option<Config>, any: State)
    requires Inv(s) && Exports(s, r)
    ensures Apply(any, if r.Some? then Set(r) else Reset) == s
  {
    hide Normalized;
    if r.Some? {
      forall o | o in r.value.origins ensures Normalized(o) == o { AlreadyNormal(o); }
      assert r.value.origins == [] || r.value.origins[0] in r.value.origins;
      assert (set o | o in r.value.origins :: Normalized(o)) == s.origins;
    }
  }

  lemma AlreadyNormal(o: string)
    requires Trimmed(o, GoSpace)
    ensures Normalized(o) == o
  {
    TrimIdempotent(o, GoSpace);
  }

  // ----- The manager

  class CORSManager {
    var origins: set<string>
    var wildcard: bool
    var configured: bool

    function View(): State
      reads this
    {
      State(origins, wildcard, configured)
    }

    constructor ()
      ensures View() == FACTORY
    {
      origins, wildcard, configured := {}, false, false;
    }

    method GetOrigin() returns (r: set<string>)
      ensures r == if Open(View()) then {"*"} else origins
      ensures Inv(View()) ==> (Open(View()) <==> "*" in r)
    {
      if !configured || wildcard {
        return {"*"};
      }
      r := {};
      var todo := origins;
      while todo != {}
        invariant todo <= origins && r == origins - todo
      {
        var o :| o in todo;
        r, todo := r + {o}, todo - {o};
      }
    }

    method AddOrigin(origin: string) returns (ok: bool)
      modifies this
      ensures ok == Accepted(old(View()), Add(origin)) && View() == Apply(old(View()), Add(origin))
    {
      hide Normalized;
      var o := Normalized(origin);
      if o == "" || o == "*" {
        return false;
      }
      if configured && !wildcard && o in origins {
        return false;
      }
      if !configured || wildcard {
        origins := {};
      }
      origins := origins + {o};
      configured, wildcard := true, false;
      ok := true;
    }

    method RemoveOrigin(origin: string) returns (ok: bool)
      modifies this
      ensures ok == Accepted(old(View()), Remove(origin)) && View() == Apply(old(View()), Remove(origin))
    {
      hide Normalized;
      var o := Normalized(origin);
      if !configured || wildcard || o !in origins {
        return false;
      }
      origins := origins - {o};
      ok := true;
    }

    method IsAllowed(origin: string) returns (r: bool)
      ensures r == Allowed(View(), origin)
    {
      if !configured || wildcard {
        return true;
      }
      r := origin in origins;
    }

    method WildcardActive() returns (r: bool)
      ensures r == Open(View())
    {
      r := !configured || wildcard;
    }

    /** Collects the origins in any order and sorts them. */
    method ExportConfig() returns (r: Option<Config>)
      ensures Exports(View(), r)
    {
      if !configured {
        return None;
      }
      var list, todo := [], origins;
      while todo != {}
        invariant todo <= origins && Distinct(list)
        invariant forall o :: o in list <==> o in origins && o !in todo
      {
        var o :| o in todo;
        list, todo := list + [o], todo - {o};
      }
      SortedAscending(list);
      r := Some(Config(Sorted(list), wildcard));
    }

    method SetConfig(config: Option<Config>) returns (ok: bool)
      modifies this
      ensures ok == Accepted(old(View()), Set(config)) && View() == Apply(old(View()), Set(config))
    {
      hide Normalized;
      if config.None? {
        return false;
      }
      var cfg := config.value;
      if cfg.wildcard && cfg.origins != [] {
        return false;
      }
      var collected := {};
      for i := 0 to |cfg.origins|
        invariant collected == set o | o in cfg.origins[..i] :: Normalized(o)
        invariant forall o :: o in cfg.origins[..i] ==> Storable(Normalized(o))
        invariant View() == old(View())
      {
        var o := Normalized(cfg.origins[i]);
        if o == "" || o == "*" {
          assert cfg.origins[i] in cfg.origins;
          return false;
        }
        assert cfg.origins[..i + 1] == cfg.origins[..i] + [cfg.origins[i]];
        collected := collected + {o};
      }
      assert cfg.origins[..|cfg.origins|] == cfg.origins;
      origins, wildcard, configured := collected, cfg.wildcard, true;
      ok := true;
    }

    method ResetConfig()
      modifies this
      ensures View() == Apply(old(View()), Reset) == FACTORY
    {
      origins, wildcard, configured := {}, false, false;
    }
  }
}
