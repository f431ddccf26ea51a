/**
 The IPVS reconciler (api/loxinlp/ipvs.go): on every tick the kernel's service table
 is read, entries that no longer match are deleted and new ones are added. What the
 kernel lists and whether the rule hooks succeed are given.
 */
module Ipvs {
  import opened Text

  datatype Key = Key(address: string, protocol: string, port: nat)

  datatype EndPoint = EndPoint(ip: string, port: nat, weight: nat)

  datatype Select = RoundRobin | RoundRobinPersist

  datatype LbMode = DefaultMode | FullNat

  datatype Entry = Entry(key: Key, sel: Select, mode: LbMode, timeout: nat, inValid: bool, endPoints: seq<EndPoint>)

  /** An endpoint as the kernel lists it, and a service; `dests` is missing when it cannot be read. */
  datatype Dest = Dest(ip: string, port: nat, weight: int)

  datatype Service = Service(
    address: string, port: nat, protocol: nat, sched: string, flags: nat, timeout: nat, dests: Option<seq<Dest>>)

  const NODE_PORT_MIN: nat := 30000
  const NODE_PORT_MAX: nat := 32768

  function ProtocolName(n: nat): Option<string> {
    if n == 1 then Some("icmp")
    else if n == 6 then Some("tcp")
    else if n == 17 then Some("udp")
    else if n == 132 then Some("sctp")
    else None
  }

  /** Endpoints as stored: the weight is cut to eight bits. */
  function Stored(ds: seq<Dest>): (r: seq<EndPoint>)
    ensures |r| == |ds|
    ensures forall i :: 0 <= i < |ds| ==> r[i].ip == ds[i].ip && r[i].port == ds[i].port && r[i].weight < 256
  {
    seq(|ds|, i requires 0 <= i < |ds| => EndPoint(ds[i].ip, ds[i].port, ds[i].weight % 256))
  }

  /** The entry a service asks for, if it is one the reconciler handles. */
  function Candidate(s: Service): Option<Entry> {
    if s.dests.None? || s.sched != "rr" || ProtocolName(s.protocol).None? || s.dests.value == [] then None
    else
      Some(Entry(
             Key(s.address, ProtocolName(s.protocol).value, s.port),
             if s.flags % 2 == 1 then RoundRobinPersist else RoundRobin,
             if NODE_PORT_MIN <= s.port <= NODE_PORT_MAX then FullNat else DefaultMode,
             s.timeout, false, Stored(s.dests.value)))
  }

  function Candidates(services: seq<Service>): seq<Entry> {
    if services == [] then []
    else
      var c, rest := Candidate(services[0]), Candidates(services[1..]);
      if c.Some? then [c.value] + rest else rest
  }

  /** What a listing asks for; a failed listing asks for nothing. */
  function Wanted(listing: Option<seq<Service>>): seq<Entry> {
    if listing.None? then [] else Candidates(listing.value)
  }

  type Table = map<Key, seq<EndPoint>>

  function Matches(m: Table, e: Entry): bool {
    e.key in m && m[e.key] == e.endPoints
  }

  /** The entries that are new or changed. */
  function Unmatched(m: Table, cs: seq<Entry>): (r: seq<Entry>)
    ensures forall e :: e in r <==> e in cs && !Matches(m, e)
  {
    if cs == [] then []
    else if Matches(m, cs[0]) then Unmatched(m, cs[1..])
    else [cs[0]] + Unmatched(m, cs[1..])
  }

  /** Entries added one after the other; a later one replaces an earlier one. */
  function Added(m: Table, es: seq<Entry>): Table
    decreases es
  {
    if es == [] then m else Added(m[es[0].key := es[0].endPoints], es[1..])
  }

  /** The entries that the listing still has as they are. */
  function Kept(m: Table, cs: seq<Entry>): Table {
    map k | k in m && exists e :: e in cs && e.key == k && m[k] == e.endPoints :: m[k]
  }

  /** One tick on the table, when every hook succeeds. */
  function Step(m: Table, cs: seq<Entry>): Table {
    Added(Kept(m, cs), Unmatched(m, cs))
  }

  /** The table a fresh process builds. */
  function Fresh(cs: seq<Entry>): Table {
    Step(map[], cs)
  }

  /** Services with the same key ask for the same endpoints. */
  ghost predicate Consistent(cs: seq<Entry>) {
    forall a, b :: a in cs && b in cs && a.key == b.key ==> a.endPoints == b.endPoints
  }

  // ----- What a listing asks for

  lemma {:induction false} CandidatesExactly(services: seq<Service>, e: Entry)
    ensures e in Candidates(services) <==> exists i :: 0 <= i < |services| && Candidate(services[i]) == Some(e)
  {
    hide Candidate;
    if services != [] {
      CandidatesExactly(services[1..], e);
      if i :| 0 <= i < |services| - 1 && Candidate(services[1..][i]) == Some(e) {
        assert Candidate(services[i + 1]) == Some(e);
      }
      if i :| 0 <= i < |services| && Candidate(services[i]) == Some(e) {
        assert i > 0 ==> services[1..][i - 1] == services[i];
      }
    }
  }

  /**
   A service is handled exactly when it is scheduled round-robin, its endpoints can be
   read and are not none, and its protocol is ICMP, TCP, UDP or SCTP.
   */
  lemma HandledExactly(s: Service)
    ensures Candidate(s).Some? <==>
            && s.sched == "rr" && s.dests.Some? && |s.dests.value| > 0
            && (s.protocol == 1 || s.protocol == 6 || s.protocol == 17 || s.protocol == 132)
  {
  }

  /** A TCP service on a port from 30000 up to 32768 is a node port, and its lowest flag makes it persistent. */
  lemma TcpService(address: string, port: nat, flags: nat, timeout: nat, ds: seq<Dest>)
    requires ds != []
    ensures var r := Candidate(Service(address, port, 6, "rr", flags, timeout, Some(ds)));
            && r.Some? && r.value.key == Key(address, "tcp", port) && r.value.timeout == timeout
            && (r.value.mode == FullNat <==> 30000 <= port <= 32768)
            && (r.value.sel == RoundRobinPersist <==> flags % 2 == 1)
            && r.value.endPoints == Stored(ds)
  {
  }

  /** A failed listing takes everything away. */
  lemma FailedListing(m: Table)
    ensures Step(m, Wanted(None)) == map[]
  {
  }

  // ----- Tables

  /** What a key holds after entries were added. */
  lemma {:induction false} AddedAt(m: Table, es: seq<Entry>, k: Key)
    ensures k in Added(m, es) <==> k in m || exists e :: e in es && e.key == k
    ensures k in Added(m, es) && !(exists e :: e in es && e.key == k) ==> Added(m, es)[k] == m[k]
    ensures (exists e :: e in es && e.key == k) ==> exists e :: e in es && e.key == k && Added(m, es)[k] == e.endPoints
    decreases es
  {
    if es != [] {
      var m' := m[es[0].key := es[0].endPoints];
      AddedAt(m', es[1..], k);
      assert forall e :: e in es <==> e == es[0] || e in es[1..];
    }
  }

  lemma {:induction false} FreshUnmatched(cs: seq<Entry>)
    ensures Unmatched(map[], cs) == cs && Kept(map[], cs) == map[]
  {
    if cs != [] { FreshUnmatched(cs[1..]); }
  }

  lemma FreshAt(cs: seq<Entry>, k: Key)
    ensures k in Fresh(cs) <==> exists e :: e in cs && e.key == k
    ensures k in Fresh(cs) ==> exists e :: e in cs && e.key == k && Fresh(cs)[k] == e.endPoints
  {
    hide Added, Unmatched, Kept;
    FreshUnmatched(cs);
    AddedAt(map[], cs, k);
  }

  lemma StepAt(m: Table, cs: seq<Entry>, k: Key)
    requires Consistent(cs)
    ensures k in Step(m, cs) <==> exists e :: e in cs && e.key == k
    ensures k in Step(m, cs) ==> exists e :: e in cs && e.key == k && Step(m, cs)[k] == e.endPoints
  {
    hide Added;
    AddedAt(Kept(m, cs), Unmatched(m, cs), k);
    if e :| e in cs && e.key == k {
      if !Matches(m, e) { assert e in Unmatched(m, cs); }
    }
  }

  /** With consistent services, a tick makes any table agree with one built from scratch. */
  lemma StepIsFresh(m: Table, cs: seq<Entry>)
    requires Consistent(cs)
    ensures Step(m, cs) == Fresh(cs)
  {
    hide Step, Fresh;
    forall k: Key
      ensures k in Step(m, cs) <==> k in Fresh(cs)
      ensures k in Step(m, cs) ==> Step(m, cs)[k] == Fresh(cs)[k]
    {
      StepAt(m, cs, k);
      FreshAt(cs, k);
    }
  }

  /** Agreement from every table holds exactly when services with one key agree. */
  lemma AgreementExactly(cs: seq<Entry>)
    ensures (forall m: Table :: Step(m, cs) == Fresh(cs)) <==> Consistent(cs)
  {
    hide Step, Fresh;
    if Consistent(cs) {
      forall m: Table ensures Step(m, cs) == Fresh(cs) { StepIsFresh(m, cs); }
    } else {
      var a, b :| a in cs && b in cs && a.key == b.key && a.endPoints != b.endPoints;
      FreshAt(cs, a.key);
      var now := Fresh(cs)[a.key];
      var m: Table := map[a.key := now];
      FlipsAway(m, cs, a, b);
      assert Step(m, cs) != Fresh(cs);
    }
  }

  /** A key with two different services changes its endpoints on every tick, whatever else the table holds. */
  lemma FlipsAway(m: Table, cs: seq<Entry>, a: Entry, b: Entry)
    requires a in cs && b in cs && a.key == b.key && a.endPoints != b.endPoints && a.key in m
    ensures a.key in Step(m, cs) && Step(m, cs)[a.key] != m[a.key]
  {
    hide Added;
    var other := if a.endPoints != m[a.key] then a else b;
    assert !Matches(m, other);
    assert other in Unmatched(m, cs);
    AddedAt(Kept(m, cs), Unmatched(m, cs), other.key);
  }

  lemma {:induction false} AllMatched(m: Table, cs: seq<Entry>)
    requires forall e :: e in cs ==> Matches(m, e)
    ensures Unmatched(m, cs) == []
  {
    if cs != [] { AllMatched(m, cs[1..]); }
  }

  /** A table that agrees with the listing needs no change. */
  lemma AgreeingUntouched(cs: seq<Entry>)
    requires Consistent(cs)
    ensures Unmatched(Fresh(cs), cs) == [] && Kept(Fresh(cs), cs) == Fresh(cs)
  {
    hide Step, Fresh;
    forall e | e in cs ensures Matches(Fresh(cs), e) {
      FreshAt(cs, e.key);
    }
    AllMatched(Fresh(cs), cs);
    forall k | k in Fresh(cs) ensures k in Kept(Fresh(cs), cs) { FreshAt(cs, k); }
  }

  // ----- The reconciler

  /** A rule's endpoints as handed to the hook, each with weight 1. */
  datatype Target = Target(ip: string, port: nat)

  function Targets(eps: seq<EndPoint>): (r: seq<Target>)
    ensures |r| == |eps| && forall i :: 0 <= i < |eps| ==> r[i].ip == eps[i].ip && r[i].port == eps[i].port
  {
    seq(|eps|, i requires 0 <= i < |eps| => Target(eps[i].ip, eps[i].port))
  }

  /** A call of a rule hook and whether it succeeded. */
  datatype Call = Del(key: Key, ok: bool) | Add(key: Key, targets: seq<Target>, ok: bool)

  predicate AddsRule(c: Call, k: Key) {
    c.Add? && c.key == k && c.ok
  }

  predicate AsksDelete(c: Call, k: Key) {
    c.Del? && c.key == k
  }

  /** A rule was added for the key and no delete was asked for since. */
  ghost predicate Owned(calls: seq<Call>, k: Key) {
    exists i :: 0 <= i < |calls| && AddsRule(calls[i], k) && forall j :: i < j < |calls| ==> !AsksDelete(calls[j], k)
  }

  /** A delete for the key failed and no rule was added for it since. */
  ghost predicate Abandoned(calls: seq<Call>, k: Key) {
    exists i :: 0 <= i < |calls| && calls[i] == Del(k, false) && forall j :: i < j < |calls| ==> !AddsRule(calls[j], k)
  }

  /** The map holds the owned keys; the rules beyond it are the abandoned ones. */
  ghost predicate Ledger(calls: seq<Call>, owned: set<Key>, ruled: set<Key>) {
    && (forall k :: k in owned <==> Owned(calls, k))
    && (forall k :: k in ruled && k !in owned <==> Abandoned(calls, k))
  }

  lemma OwnedStep(calls: seq<Call>, c: Call, k: Key)
    ensures Owned(calls + [c], k) <==> AddsRule(c, k) || (Owned(calls, k) && !AsksDelete(c, k))
  {
    var n, more := |calls|, calls + [c];
    assert more[n] == c && forall j :: 0 <= j < n ==> more[j] == calls[j];
    if i :| 0 <= i < n && AddsRule(calls[i], k) && forall j :: i < j < n ==> !AsksDelete(calls[j], k) {
      assert AddsRule(more[i], k);
    }
    if i :| 0 <= i < n + 1 && AddsRule(more[i], k) && forall j :: i < j < n + 1 ==> !AsksDelete(more[j], k) {
      if i < n {
        assert AddsRule(calls[i], k) && !AsksDelete(more[n], k);
        assert forall j :: i < j < n ==> calls[j] == more[j];
      }
    }
  }

  lemma AbandonedStep(calls: seq<Call>, c: Call, k: Key)
    ensures Abandoned(calls + [c], k) <==> c == Del(k, false) || (Abandoned(calls, k) && !AddsRule(c, k))
  {
    var n, more := |calls|, calls + [c];
    assert more[n] == c && forall j :: 0 <= j < n ==> more[j] == calls[j];
    if i :| 0 <= i < n && calls[i] == Del(k, false) && forall j :: i < j < n ==> !AddsRule(calls[j], k) {
      assert more[i] == Del(k, false);
    }
    if i :| 0 <= i < n + 1 && more[i] == Del(k, false) && forall j :: i < j < n + 1 ==> !AddsRule(more[j], k) {
      if i < n {
        assert calls[i] == Del(k, false) && !AddsRule(more[n], k);
        assert forall j :: i < j < n ==> calls[j] == more[j];
      }
    }
  }

  /** A delete takes the key out of the map; if it fails, its rule is left over. */
  lemma LedgerDel(calls: seq<Call>, owned: set<Key>, ruled: set<Key>, k: Key, ok: bool)
    requires Ledger(calls, owned, ruled) && k in owned && k in ruled
    ensures Ledger(calls + [Del(k, ok)], owned - {k}, if ok then ruled - {k} else ruled)
  {
    hide Owned, Abandoned;
    var c := Del(k, ok);
    forall j: Key
      ensures Owned(calls + [c], j) <==> Owned(calls, j) && !AsksDelete(c, j)
      ensures Abandoned(calls + [c], j) <==> c == Del(j, false) || Abandoned(calls, j)
    {
      OwnedStep(calls, c, j);
      AbandonedStep(calls, c, j);
    }
  }

  /** A failed add changes nothing; a successful one also adopts a rule that was left over. */
  lemma LedgerAdd(calls: seq<Call>, owned: set<Key>, ruled: set<Key>, c: Call)
    requires Ledger(calls, owned, ruled) && c.Add?
    ensures Ledger(calls + [c], if c.ok then owned + {c.key} else owned, if c.ok then ruled + {c.key} else ruled)
  {
    hide Owned, Abandoned;
    forall j: Key
      ensures Owned(calls + [c], j) <==> AddsRule(c, j) || Owned(calls, j)
      ensures Abandoned(calls + [c], j) <==> Abandoned(calls, j) && !AddsRule(c, j)
    {
      OwnedStep(calls, c, j);
      AbandonedStep(calls, c, j);
    }
  }

  /** The endpoints of each entry. */
  function TableOf(m: map<Key, Entry>): (t: Table)
    ensures t.Keys == m.Keys
  {
    map k | k in m :: m[k].endPoints
  }

  function Rules(t: Table): map<Key, seq<Target>> {
    map k | k in t :: Targets(t[k])
  }

  /** Every entry is filed under its key, and its rule is installed with its endpoints. */
  ghost predicate Filed(m: map<Key, Entry>, installed: map<Key, seq<Target>>) {
    forall k :: k in m ==> m[k].key == k && k in installed && installed[k] == Targets(m[k].endPoints)
  }

  function Flagged(m: map<Key, Entry>, k: Key, gone: bool): map<Key, Entry>
    requires k in m
  {
    m[k := m[k].(inValid := gone)]
  }

  /** Setting a flag changes nothing else. */
  lemma FlagOnly(m: map<Key, Entry>, k: Key, gone: bool, installed: map<Key, seq<Target>>)
    requires k in m && Filed(m, installed)
    ensures var m' := Flagged(m, k, gone);
            && m'.Keys == m.Keys && TableOf(m') == TableOf(m) && Filed(m', installed)
            && forall j :: j in m ==> m'[j].inValid == if j == k then gone else m[j].inValid
  {
    hide Targets;
  }

  class IPVSH {
    var RMap: map<Key, Entry>
    var installed: map<Key, seq<Target>>
    var calls: seq<Call>

    ghost predicate Valid()
      reads this
    {
      Filed(RMap, installed) && Ledger(calls, RMap.Keys, installed.Keys)
    }

    constructor ()
      ensures Valid() && RMap == map[] && installed == map[] && calls == []
    {
      RMap, installed, calls := map[], map[], [];
    }

    /** The rule hooks: a failed call changes nothing. */
    method NetLbRuleDel(key: Key, ok: bool)
      modifies this`installed, this`calls
      ensures calls == old(calls) + [Del(key, ok)]
      ensures installed == if ok then old(installed) - {key} else old(installed)
    {
      calls := calls + [Del(key, ok)];
      if ok { installed := installed - {key}; }
    }

    method NetLbRuleAdd(key: Key, targets: seq<Target>, ok: bool)
      modifies this`installed, this`calls
      ensures calls == old(calls) + [Add(key, targets, ok)]
      ensures installed == if ok then old(installed)[key := targets] else old(installed)
    {
      calls := calls + [Add(key, targets, ok)];
      if ok { installed := installed[key := targets]; }
    }

    /** Marks every entry as possibly gone. */
    method Mark()
      requires Valid()
      modifies this`RMap
      ensures Valid() && TableOf(RMap) == TableOf(old(RMap)) && forall k :: k in RMap ==> RMap[k].inValid
    {
      hide Filed, Ledger, TableOf, Flagged;
      var todo := RMap.Keys;
      while todo != {}
        invariant todo <= RMap.Keys && Valid() && TableOf(RMap) == TableOf(old(RMap))
        invariant forall k :: k in RMap && k !in todo ==> RMap[k].inValid
        decreases |todo|
      {
        var k :| k in todo;
        FlagOnly(RMap, k, true, installed);
        RMap := Flagged(RMap, k, true);
        todo := todo - {k};
      }
    }

    /** Reads the services: confirms the entries that match and lists the others. */
    method BuildIPVSDB(listing: Option<seq<Service>>) returns (list: seq<Entry>)
      requires Valid() && forall k :: k in RMap ==> RMap[k].inValid
      modifies this`RMap
      ensures Valid() && TableOf(RMap) == TableOf(old(RMap))
      ensures list == Unmatched(TableOf(RMap), Wanted(listing))
      ensures GoneExactly(RMap, Wanted(listing))
    {
      hide Filed, Ledger, TableOf, Flagged, Unmatched, Kept, Candidates, Candidate, GoneExactly;
      list := [];
      ghost var t := TableOf(RMap);
      NothingRead(RMap, t);
      if listing.None? {
        return;
      }
      var services := listing.value;
      assert services[..0] == [];
      for i := 0 to |services|
        invariant Valid() && TableOf(RMap) == t
        invariant list == Unmatched(t, Candidates(services[..i]))
        invariant GoneExactly(RMap, Candidates(services[..i]))
      {
        CandidatesMore(services, i, t);
        var c := ReadService(services[i]);
        if c.Some? {
          ServiceRead(RMap, Candidates(services[..i]), c.value);
          var e := c.value;
          if e.key in RMap && RMap[e.key].endPoints == e.endPoints {
            FlagOnly(RMap, e.key, false, installed);
            RMap := Flagged(RMap, e.key, false);
          } else {
            list := list + [e];
          }
        }
      }
      assert services[..|services|] == services;
    }

    /** Deletes the entries that are gone, with their rules; an entry goes even if its hook call fails. */
    method Sweep(ok: nat -> bool)
      requires Valid()
      modifies this
      ensures Valid()
      ensures RMap == Remaining(old(RMap))
      ensures forall k :: k in old(installed) && k !in Removed(old(RMap)) ==> k in installed && installed[k] == old(installed)[k]
      ensures installed.Keys <= old(installed).Keys
      ensures AllSucceed(ok) ==> installed == old(installed) - Removed(old(RMap))
      ensures Removed(old(RMap)) == {} ==> calls == old(calls)
    {
      hide Filed, Ledger, Sweeping;
      var todo, n := RMap.Keys, 0;
      ghost var m0, i0 := RMap, installed;
      SweepStarts(m0, i0, AllSucceed(ok));
      while todo != {}
        invariant todo <= m0.Keys && Sweeping(m0, i0, RMap, installed, todo, AllSucceed(ok))
        invariant Ledger(calls, RMap.Keys, installed.Keys)
        invariant Removed(m0) == {} ==> calls == old(calls)
        decreases |todo|
      {
        var k :| k in todo;
        SweepEntry(m0, i0, RMap, installed, todo, AllSucceed(ok), k);
        todo := todo - {k};
        if RMap[k].inValid {
          LedgerDel(calls, RMap.Keys, installed.Keys, k, ok(n));
          ghost var left := installed.Keys - {k};
          assert (installed - {k}).Keys == left && (RMap - {k}).Keys == RMap.Keys - {k};
          NetLbRuleDel(RMap[k].key, ok(n));
          n := n + 1;
          RMap := RMap - {k};
        }
      }
      SweepEnds(m0, i0, RMap, installed, AllSucceed(ok));
    }

    /** Installs the new entries; exactly those whose rule was added enter the map. */
    method AddAll(list: seq<Entry>, ok: nat -> bool)
      requires Valid()
      modifies this
      ensures Valid()
      ensures TableOf(RMap) == Added(TableOf(old(RMap)), Passing(list, ok))
      ensures Clean(old(RMap), old(installed)) ==> Clean(RMap, installed)
      ensures list == [] ==> calls == old(calls) && RMap == old(RMap)
    {
      hide Filed, Ledger, TableOf, Clean, Targets, Added, Passing;
      ghost var t := TableOf(RMap);
      NothingAdded(t, ok);
      assert list[..0] == [];
      for i := 0 to |list|
        invariant Valid() && (i == 0 ==> calls == old(calls) && RMap == old(RMap))
        invariant TableOf(RMap) == Added(t, Passing(list[..i], ok))
        invariant Clean(old(RMap), old(installed)) ==> Clean(RMap, installed)
      {
        var e := list[i];
        PassingStep(t, list, i, ok);
        EntryAdded(RMap, installed, e);
        LedgerAdd(calls, RMap.Keys, installed.Keys, Add(e.key, Targets(e.endPoints), ok(i)));
        assert RMap[e.key := e].Keys == RMap.Keys + {e.key};
        assert installed[e.key := Targets(e.endPoints)].Keys == installed.Keys + {e.key};
        NetLbRuleAdd(e.key, Targets(e.endPoints), ok(i));
        if ok(i) {
          RMap := RMap[e.key := e];
        }
      }
      assert list[..|list|] == list;
    }

    /**
     One tick. Whatever the hooks do, every entry keeps its installed rule and the map
     moves by one step in which exactly the successful adds count; failed deletes leave
     no trace in the map. When all deletes succeed no rule is left over. After successful
     adds a consistent listing is in place, and a listing in place causes no hook call.
     */
    method Tick(listing: Option<seq<Service>>, okDel: nat -> bool, okAdd: nat -> bool)
      requires Valid()
      modifies this
      ensures Valid()
      ensures TableOf(RMap) == StepWith(TableOf(old(RMap)), Wanted(listing), okAdd)
      ensures AllSucceed(okDel) && Clean(old(RMap), old(installed)) ==> Clean(RMap, installed)
      ensures AllSucceed(okAdd) && Consistent(Wanted(listing)) ==> InPlace(TableOf(RMap), Wanted(listing))
      ensures InPlace(TableOf(old(RMap)), Wanted(listing)) ==> calls == old(calls) && TableOf(RMap) == TableOf(old(RMap))
    {
      hide Filed, Ledger, TableOf, Consistent, InPlace, Unmatched, Kept, Added, Passing, GoneExactly, Removed, Remaining, Clean, AllSucceed;
      Mark();
      SameTableClean(old(RMap), RMap, installed);
      ghost var marked := RMap;
      var list := BuildIPVSDB(listing);
      SameTableClean(marked, RMap, installed);
      ghost var m, i := RMap, installed;
      SweepLeaves(m, Wanted(listing));
      Sweep(okDel);
      if AllSucceed(okDel) { SweepClean(m, i); }
      AddAll(list, okAdd);
      InPlaceMeans(TableOf(old(RMap)), Wanted(listing));
      if AllSucceed(okAdd) && Consistent(Wanted(listing)) { RepeatedListing(TableOf(old(RMap)), Wanted(listing), okAdd); }
    }

    /**
     The reconciler loop: one tick for each listing that arrives until it is stopped.
     After any history, failed hooks included, a last tick whose adds succeed leaves the
     map a fresh process builds, and the same listing again would cause no call. The
     rules are those of the map exactly when no failed delete was left behind, in
     particular when no delete ever failed.
     */
    method IPVSSync(listings: seq<Option<seq<Service>>>, okDel: (nat, nat) -> bool, okAdd: (nat, nat) -> bool)
      requires Valid()
      modifies this
      ensures Valid()
      ensures listings != [] ==>
                var last := |listings| - 1;
                TickSucceeds(okAdd, last) && Consistent(Wanted(listings[last])) ==>
                  TableOf(RMap) == Fresh(Wanted(listings[last])) && InPlace(TableOf(RMap), Wanted(listings[last]))
      ensures installed == Rules(TableOf(RMap)) <==> forall k :: !Abandoned(calls, k)
      ensures EveryTick(okDel) && Clean(old(RMap), old(installed)) ==> installed == Rules(TableOf(RMap))
    {
      hide Filed, Ledger, TableOf, Rules, InPlace, Step, StepWith, Fresh, Wanted, Consistent, Abandoned;
      for t := 0 to |listings|
        invariant Valid()
        invariant EveryTick(okDel) && Clean(old(RMap), old(installed)) ==> Clean(RMap, installed)
        invariant t > 0 && TickSucceeds(okAdd, t - 1) && Consistent(Wanted(listings[t - 1])) ==>
                    TableOf(RMap) == Fresh(Wanted(listings[t - 1])) && InPlace(TableOf(RMap), Wanted(listings[t - 1]))
      {
        if TickSucceeds(okAdd, t) && Consistent(Wanted(listings[t])) {
          StepIsFresh(TableOf(RMap), Wanted(listings[t]));
          AllPass(TableOf(RMap), Wanted(listings[t]), (n: nat) => okAdd(t, n));
        }
        Tick(listings[t], (n: nat) => okDel(t, n), (n: nat) => okAdd(t, n));
      }
      CleanExactly(calls, RMap, installed);
    }
  }

  /** Every hook call of tick `t` succeeds. */
  ghost predicate TickSucceeds(ok: (nat, nat) -> bool, t: nat) {
    forall n: nat :: ok(t, n)
  }

  ghost predicate EveryTick(ok: (nat, nat) -> bool) {
    forall t: nat, n: nat :: ok(t, n)
  }

  /** No rule is installed beyond those of the map. */
  ghost predicate Clean(m: map<Key, Entry>, installed: map<Key, seq<Target>>) {
    installed == Rules(TableOf(m))
  }

  /** The listing asks for exactly what the table has. */
  predicate InPlace(t: Table, cs: seq<Entry>) {
    Unmatched(t, cs) == [] && Kept(t, cs) == t
  }

  /** The entries whose add succeeds. */
  function Passing(list: seq<Entry>, ok: nat -> bool): seq<Entry> {
    if list == [] then []
    else
      var n := |list| - 1;
      Passing(list[..n], ok) + if ok(n) then [list[n]] else []
  }

  /** One tick on the table, with the adds that succeed. */
  function StepWith(m: Table, cs: seq<Entry>, okAdd: nat -> bool): Table {
    Added(Kept(m, cs), Passing(Unmatched(m, cs), okAdd))
  }

  lemma {:induction false} PassingAll(list: seq<Entry>, ok: nat -> bool)
    requires AllSucceed(ok)
    ensures Passing(list, ok) == list
  {
    if list != [] { PassingAll(list[..|list| - 1], ok); }
  }

  lemma AllPass(m: Table, cs: seq<Entry>, ok: nat -> bool)
    requires AllSucceed(ok)
    ensures StepWith(m, cs, ok) == Step(m, cs)
  {
    hide Added, Unmatched, Kept;
    PassingAll(Unmatched(m, cs), ok);
  }

  lemma PassingStep(t: Table, list: seq<Entry>, i: nat, ok: nat -> bool)
    requires i < |list|
    ensures var before, after, e := Added(t, Passing(list[..i], ok)), Added(t, Passing(list[..i + 1], ok)), list[i];
            after == if ok(i) then before[e.key := e.endPoints] else before
  {
    var a := list[..i + 1];
    assert a[..|a| - 1] == list[..i] && a[|a| - 1] == list[i];
    AddedSnoc(t, Passing(list[..i], ok), list[i]);
    assert Passing(list[..i], ok) + [] == Passing(list[..i], ok);
  }

  lemma InPlaceMeans(t: Table, cs: seq<Entry>)
    ensures InPlace(t, cs) <==> Unmatched(t, cs) == [] && Kept(t, cs) == t
  {
  }

  /** After a tick whose adds succeed, the same consistent listing asks for nothing more. */
  lemma RepeatedListing(m: Table, cs: seq<Entry>, okAdd: nat -> bool)
    requires Consistent(cs) && AllSucceed(okAdd)
    ensures InPlace(StepWith(m, cs, okAdd), cs)
  {
    hide Step, StepWith, Fresh, Unmatched, Kept, Consistent, AllSucceed;
    AllPass(m, cs, okAdd);
    StepIsFresh(m, cs);
    AgreeingUntouched(cs);
  }

  lemma NothingAdded(t: Table, ok: nat -> bool)
    ensures Added(t, Passing([], ok)) == t
  {
  }

  /** No rule is left over exactly when no key is abandoned. */
  lemma CleanExactly(calls: seq<Call>, m: map<Key, Entry>, installed: map<Key, seq<Target>>)
    requires Filed(m, installed) && Ledger(calls, m.Keys, installed.Keys)
    ensures installed == Rules(TableOf(m)) <==> forall k :: !Abandoned(calls, k)
  {
    hide Owned, Abandoned, Targets;
    var rules := Rules(TableOf(m));
    assert rules.Keys == m.Keys;
    assert (forall k :: !Abandoned(calls, k)) <==> installed.Keys == m.Keys;
    assert installed.Keys == m.Keys ==> forall k :: k in m ==> installed[k] == rules[k];
  }

  lemma {:induction false} AddedSnoc(t: Table, es: seq<Entry>, e: Entry)
    ensures Added(t, es + [e]) == Added(t, es)[e.key := e.endPoints]
    decreases es
  {
    if es == [] {
      assert [] + [e] == [e] && [e][1..] == [];
    } else {
      assert (es + [e])[1..] == es[1..] + [e];
      AddedSnoc(t[es[0].key := es[0].endPoints], es[1..], e);
    }
  }

  /** Adding an entry together with its rule, or neither. */
  lemma EntryAdded(m: map<Key, Entry>, installed: map<Key, seq<Target>>, e: Entry)
    requires Filed(m, installed)
    ensures var m', i' := m[e.key := e], installed[e.key := Targets(e.endPoints)];
            && Filed(m', i') && TableOf(m') == TableOf(m)[e.key := e.endPoints]
            && (Clean(m, installed) ==> Clean(m', i'))
  {
    hide Targets;
  }

  lemma SameTableClean(m: map<Key, Entry>, m': map<Key, Entry>, installed: map<Key, seq<Target>>)
    requires TableOf(m) == TableOf(m')
    ensures Clean(m, installed) <==> Clean(m', installed)
  {
  }

  /** What the sweep leaves is what the listing keeps. */
  lemma SweepLeaves(m: map<Key, Entry>, cs: seq<Entry>)
    requires GoneExactly(m, cs)
    ensures TableOf(Remaining(m)) == Kept(TableOf(m), cs)
    ensures Kept(TableOf(m), cs) == TableOf(m) ==> Removed(m) == {}
  {
  }

  lemma SweepClean(m: map<Key, Entry>, installed: map<Key, seq<Target>>)
    ensures Clean(m, installed) ==> Clean(Remaining(m), installed - Removed(m))
  {
    hide Targets;
  }

  /** Where the sweep stands, with `todo` the keys still to be looked at. */
  ghost predicate Sweeping(m0: map<Key, Entry>, i0: map<Key, seq<Target>>, m: map<Key, Entry>, i: map<Key, seq<Target>>,
                           todo: set<Key>, all: bool) {
    && (forall k :: k in m <==> k in m0 && (k in todo || !m0[k].inValid))
    && (forall k :: k in m ==> m[k] == m0[k])
    && (forall k :: k in i ==> k in i0)
    && (forall k :: k in i0 && (k in todo || k !in Removed(m0)) ==> k in i && i[k] == i0[k])
    && (all ==> forall k :: k in Removed(m0) && k !in todo ==> k !in i)
    && Filed(m0, i0)
  }

  lemma SweepStarts(m0: map<Key, Entry>, i0: map<Key, seq<Target>>, all: bool)
    requires Filed(m0, i0)
    ensures Sweeping(m0, i0, m0, i0, m0.Keys, all)
  {
    hide Filed;
  }

  lemma SweepEntry(m0: map<Key, Entry>, i0: map<Key, seq<Target>>, m: map<Key, Entry>, i: map<Key, seq<Target>>,
                   todo: set<Key>, all: bool, k: Key)
    requires Sweeping(m0, i0, m, i, todo, all) && k in todo && todo <= m0.Keys
    ensures k in m && k in i && m[k].key == k && (m[k].inValid ==> k in Removed(m0))
    ensures !m[k].inValid ==> Sweeping(m0, i0, m, i, todo - {k}, all)
    ensures m[k].inValid ==> Sweeping(m0, i0, m - {k}, i - {k}, todo - {k}, all)
    ensures m[k].inValid && !all ==> Sweeping(m0, i0, m - {k}, i, todo - {k}, all)
  {
    hide Targets;
  }

  lemma SweepEnds(m0: map<Key, Entry>, i0: map<Key, seq<Target>>, m: map<Key, Entry>, i: map<Key, seq<Target>>, all: bool)
    requires Sweeping(m0, i0, m, i, {}, all)
    ensures m == Remaining(m0) && Filed(m, i) && i.Keys <= i0.Keys
    ensures forall k :: k in i0 && k !in Removed(m0) ==> k in i && i[k] == i0[k]
    ensures all ==> i == i0 - Removed(m0)
  {
    hide Targets;
  }

  /** Reads one service with its endpoints. */
  method ReadService(s: Service) returns (r: Option<Entry>)
    ensures r == Candidate(s)
  {
    if s.dests.None? {
      return None;
    }
    if s.sched != "rr" {
      return None;
    }
    var sel := RoundRobin;
    if s.flags % 2 == 1 {
      sel := RoundRobinPersist;
    }
    var proto := "";
    if s.protocol == 1 {
      proto := "icmp";
    } else if s.protocol == 6 {
      proto := "tcp";
    } else if s.protocol == 17 {
      proto := "udp";
    } else if s.protocol == 132 {
      proto := "sctp";
    } else {
      return None;
    }
    var mode := DefaultMode;
    if s.port >= NODE_PORT_MIN && s.port <= NODE_PORT_MAX {
      mode := FullNat;
    }
    var dests, endPoints := s.dests.value, [];
    for i := 0 to |dests|
      invariant endPoints == Stored(dests[..i])
    {
      endPoints := endPoints + [EndPoint(dests[i].ip, dests[i].port, dests[i].weight % 256)];
    }
    assert dests[..|dests|] == dests;
    if |endPoints| != 0 {
      return Some(Entry(Key(s.address, proto, s.port), sel, mode, s.timeout, false, endPoints));
    }
    r := None;
  }

  /** Every hook call of a tick succeeds. */
  ghost predicate AllSucceed(ok: nat -> bool) {
    forall n: nat :: ok(n)
  }

  function Removed(m: map<Key, Entry>): set<Key> {
    set k | k in m && m[k].inValid
  }

  function Remaining(m: map<Key, Entry>): map<Key, Entry> {
    map k | k in m && !m[k].inValid :: m[k]
  }

  /** Exactly the entries the services do not ask for any more are marked as gone. */
  ghost predicate GoneExactly(m: map<Key, Entry>, cs: seq<Entry>) {
    forall k :: k in m ==> (m[k].inValid <==> k !in Kept(TableOf(m), cs))
  }

  lemma NothingRead(m: map<Key, Entry>, t: Table)
    requires forall k :: k in m ==> m[k].inValid
    ensures GoneExactly(m, []) && Unmatched(t, []) == [] && Candidates([]) == []
  {
  }

  lemma KeptMore(t: Table, cs: seq<Entry>, e: Entry)
    ensures forall k :: k in t ==> (k in Kept(t, cs + [e]) <==> k in Kept(t, cs) || (k == e.key && Matches(t, e)))
  {
    assert forall x :: x in cs + [e] <==> x in cs || x == e;
  }

  /** One more service confirms the entry it matches, if any. */
  lemma ServiceRead(m: map<Key, Entry>, cs: seq<Entry>, e: Entry)
    requires GoneExactly(m, cs)
    ensures e.key in m && m[e.key].endPoints == e.endPoints ==>
              Matches(TableOf(m), e) && GoneExactly(Flagged(m, e.key, false), cs + [e])
    ensures !(e.key in m && m[e.key].endPoints == e.endPoints) ==> !Matches(TableOf(m), e) && GoneExactly(m, cs + [e])
  {
    hide Kept;
    var t := TableOf(m);
    KeptMore(t, cs, e);
    if e.key in m && m[e.key].endPoints == e.endPoints {
      var m' := Flagged(m, e.key, false);
      assert TableOf(m') == t;
    }
  }

  /** Reading one more service. */
  lemma CandidatesMore(services: seq<Service>, i: nat, t: Table)
    requires i < |services|
    ensures var before, after, c := Candidates(services[..i]), Candidates(services[..i + 1]), Candidate(services[i]);
            && (c.None? ==> after == before)
            && (c.Some? ==> after == before + [c.value])
            && Unmatched(t, after) == Unmatched(t, before) + (if c.Some? && !Matches(t, c.value) then [c.value] else [])
  {
    assert services[..i + 1] == services[..i] + [services[i]];
    CandidatesConcat(services[..i], [services[i]]);
    var c := Candidate(services[i]);
    if c.Some? {
      UnmatchedConcat(t, Candidates(services[..i]), [c.value]);
      assert Candidates([services[i]]) == [c.value];
    }
  }

  lemma {:induction false} CandidatesConcat(a: seq<Service>, b: seq<Service>)
    ensures Candidates(a + b) == Candidates(a) + Candidates(b)
  {
    if a == [] {
      assert a + b == b;
    } else {
      assert (a + b)[1..] == a[1..] + b;
      CandidatesConcat(a[1..], b);
    }
  }

  lemma {:induction false} UnmatchedConcat(t: Table, a: seq<Entry>, b: seq<Entry>)
    ensures Unmatched(t, a + b) == Unmatched(t, a) + Unmatched(t, b)
  {
    if a == [] {
      assert a + b == b;
    } else {
      assert (a + b)[1..] == a[1..] + b;
      UnmatchedConcat(t, a[1..], b);
    }
  }
}
