/**
 What the address pool holds, over every interleaving, and what one call does when
 nobody interferes: the same as AssignNewIPv4 of module IpPool.
 */
module PoolContents {
  import opened Text
  import opened IpGenerator
  import opened IpPool
  import opened PoolProtocol

  // ----- The pool is what the log says

  /** The key was taken and not given back since, or it is reserved and was never given back. */
  ghost predicate Held(n: Subnet, log: seq<Event>, key: string) {
    || (exists i :: 0 <= i < |log| && log[i].Takes() == Some(key) && !Retrieves(log, key, i, |log|))
    || (key in {Dotted(n.net), Dotted(BroadcastIP(n))} && Retrieved(key) !in log)
  }

  ghost predicate PoolIs(n: Subnet, s: State) {
    forall key: string :: key in s.pool <==> Held(n, s.log, key)
  }

  /** One more event: a taking event holds its key, a return frees its key, anything else changes nothing. */
  lemma HeldStep(n: Subnet, log: seq<Event>, e: Event, key: string)
    ensures Held(n, log + [e], key) <==> e.Takes() == Some(key) || (Held(n, log, key) && e != Retrieved(key))
  {
    hide Dotted, BroadcastIP;
    var m, more := |log|, log + [e];
    assert more[m] == e && forall i :: 0 <= i < m ==> more[i] == log[i];
    forall i | 0 <= i < m
      ensures Retrieves(more, key, i, m + 1) <==> Retrieves(log, key, i, m) || e == Retrieved(key)
    {
      if k :| i <= k < m && log[k] == Retrieved(key) { assert more[k] == Retrieved(key); }
      if e == Retrieved(key) { assert more[m] == Retrieved(key); }
    }
    assert Retrieves(more, key, m, m + 1) <==> e == Retrieved(key);
    if i :| 0 <= i < m && log[i].Takes() == Some(key) && !Retrieves(log, key, i, m) {
      assert more[i].Takes() == Some(key);
    }
  }

  lemma ContentsKept(n: Subnet, s: State, a: Action)
    requires PoolIs(n, s) && Enabled(s, a)
    ensures PoolIs(n, Apply(n, s, a))
  {
    hide Dotted, BroadcastIP, AddressAt, Wrapped, Held;
    var s' := Apply(n, s, a);
    if s'.log != s.log {
      var e := s'.log[|s.log|];
      assert s'.log == s.log + [e];
      forall key: string ensures key in s'.pool <==> Held(n, s'.log, key) {
        HeldStep(n, s.log, e, key);
      }
    }
  }

  /** In every reachable state the pool holds exactly the keys that the log says are held. */
  lemma PoolExactly(n: Subnet, run: seq<Action>, s: State, key: string)
    requires Reaches(n, run, s)
    ensures key in s.pool <==> Held(n, s.log, key)
  {
    Contents(n, run, s);
  }

  lemma {:induction false} Contents(n: Subnet, run: seq<Action>, s: State)
    requires Reaches(n, run, s)
    ensures PoolIs(n, s)
    decreases |run|
  {
    hide Enabled, Apply, Dotted, BroadcastIP;
    if run != [] {
      var last := |run| - 1;
      var p :| Reaches(n, run[..last], p) && Enabled(p, run[last]) && s == Apply(n, p, run[last]);
      Contents(n, run[..last], p);
      ContentsKept(n, p, run[last]);
    }
  }

  // ----- One call at a time

  /** With the lock free, giving back and marking do to the pool what RetrieveIPv4 and UpdateAllocateddIPv4 do. */
  lemma StepsAreCalls(n: Subnet, s: State, key: string)
    ensures Enabled(s, Retrieve(key)) <==> s.lock.None?
    ensures Enabled(s, Mark(key)) <==> s.lock.None?
    ensures s.lock.None? ==> Apply(n, s, Retrieve(key)).pool == s.pool - {key}
    ensures s.lock.None? ==> Apply(n, s, Mark(key)).pool == s.pool + {key}
  {
  }

  /** A step of caller `t`. */
  predicate By(a: Action, t: Caller) {
    !a.Retrieve? && !a.Mark? && a.t == t
  }

  /** A caller has at most one step to take. */
  lemma OneStep(s: State, t: Caller, a: Action, b: Action)
    requires By(a, t) && By(b, t) && Enabled(s, a) && Enabled(s, b)
    ensures a == b
  {
  }

  /** `r` goes on from `run` with steps of `t` only. */
  predicate Solo(run: seq<Action>, r: seq<Action>, t: Caller) {
    run <= r && forall i :: |run| <= i < |r| ==> By(r[i], t)
  }

  /** What a call of `t` that ran alone from `s` left behind. */
  ghost predicate Done(n: Subnet, s: State, t: Caller, s': State, ip: Option<IPv4>, draws: nat)
    requires n.Valid()
  {
    && Assigned(n, s.pool, |s.draws|, ip, draws)
    && s'.pool == s.pool + (if ip.Some? then {Dotted(ip.value)} else {})
    && s'.log == s.log + [if ip.Some? then Returned(t, ip.value) else ReturnedNil(t)]
    && |s'.draws| == |s.draws| + draws && s'.lock.None?
    && s'.PhaseOf(t).Idle? && forall u :: u != t ==> s'.PhaseOf(u) == s.PhaseOf(u)
  }

  /** Caller `t` inside the lock, after `k` draws that were all taken. */
  ghost predicate Midway(n: Subnet, s: State, t: Caller, s1: State, k: nat) {
    && s1.pool == s.pool && s1.log == s.log && |s1.draws| == |s.draws| + k && s1.lock == Some(t)
    && s1.PhaseOf(t) == ReadNext(|s.draws|, AddressAt(n, |s.draws|))
    && (forall u :: u != t ==> s1.PhaseOf(u) == s.PhaseOf(u))
    && TakenFor(n, s.pool, |s.draws|, k)
  }

  lemma SoloMore(run: seq<Action>, r: seq<Action>, t: Caller, a: Action)
    requires Solo(run, r, t) && By(a, t)
    ensures Solo(run, r + [a], t)
  {
  }

  lemma {:induction false} SoloSearch(n: Subnet, run: seq<Action>, s: State, t: Caller, run1: seq<Action>, s1: State, k: nat)
    returns (r: seq<Action>, s': State, ip: Option<IPv4>, draws: nat)
    requires n.Valid() && Solo(run, run1, t) && Reaches(n, run1, s1)
    requires 1 <= k <= n.Size() && Midway(n, s, t, s1, k)
    ensures Reaches(n, r, s') && Solo(run, r, t) && Done(n, s, t, s', ip, draws)
    decreases n.Size() - k
  {
    hide AddressAt, Dotted, Wrapped, Reaches, Assigned, TakenFor;
    var c := |s.draws|;
    var r2, s2 := Draws(n, run1, s1, t);
    SoloMore(run, run1, t, Read(t));
    SoloMore(run, run1 + [Read(t)], t, Swap(t));
    Extend(n, r2, s2, Look(t));
    SoloMore(run, r2, t, Look(t));
    r, s' := r2 + [Look(t)], Apply(n, s2, Look(t));
    assert KeyAfter(n, c, k) == Dotted(AddressAt(n, c + k));
    if KeyAfter(n, c, k) !in s.pool {
      FreeDrawEnds(n, s.pool, c, k);
      ip, draws := Some(AddressAt(n, c + k)), k + 1;
    } else {
      TakenDraw(n, s.pool, c, k);
      if AddressAt(n, c + k) == AddressAt(n, c) {
        ip, draws := None, k + 1;
      } else {
        r, s', ip, draws := SoloSearch(n, run, s, t, r, s', k + 1);
      }
    }
  }

  /**
   A call that nobody interferes with assigns as AssignNewIPv4 of module IpPool does:
   the first free address in cyclic order from the counter, or nothing.
   */
  lemma SoloAssigns(n: Subnet, run: seq<Action>, s: State, t: Caller)
    returns (r: seq<Action>, s': State, ip: Option<IPv4>, draws: nat)
    requires n.Valid() && Reaches(n, run, s) && s.lock.None? && s.PhaseOf(t).Idle?
    ensures Reaches(n, r, s') && Solo(run, r, t) && Done(n, s, t, s', ip, draws)
  {
    hide AddressAt, Dotted, Wrapped, Reaches, Assigned, TakenFor;
    var c := |s.draws|;
    TakenNone(n, s.pool, c);
    var r1, s1 := DrawsFirst(n, run, s, t);
    SoloMore(run, run, t, Begin(t));
    SoloMore(run, run + [Begin(t)], t, Read(t));
    SoloMore(run, run + [Begin(t)] + [Read(t)], t, Swap(t));
    Extend(n, r1, s1, Lock(t));
    SoloMore(run, r1, t, Lock(t));
    var s2 := Apply(n, s1, Lock(t));
    Extend(n, r1 + [Lock(t)], s2, Look(t));
    SoloMore(run, r1 + [Lock(t)], t, Look(t));
    r, s' := r1 + [Lock(t)] + [Look(t)], Apply(n, s2, Look(t));
    assert KeyAfter(n, c, 0) == Dotted(AddressAt(n, c));
    if KeyAfter(n, c, 0) !in s.pool {
      FreeDrawEnds(n, s.pool, c, 0);
      ip, draws := Some(AddressAt(n, c)), 1;
    } else {
      TakenDraw(n, s.pool, c, 0);
      r, s', ip, draws := SoloSearch(n, run, s, t, r, s', 1);
    }
  }
}
