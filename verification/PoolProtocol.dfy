/**
 The address pool under any interleaving of callers. AssignNewIPv4 draws its first
 address before it takes the lock; reading the counter, swapping it, taking the lock
 and looking an address up are separate steps. RetrieveIPv4 and UpdateAllocateddIPv4
 run entirely under the lock and are one step each.
 */
module PoolProtocol {
  import opened Text
  import opened IpGenerator
  import opened IpPool

  type Caller = nat

  /**
   Where a caller of AssignNewIPv4 stands. `start` and `ip` are its local variables;
   `first` and `last` are the ordinals of the draws they came from.
   */
  datatype Phase =
    | Idle
    | ReadFirst
    | SwapFirst(seen: nat)
    | Waiting(first: nat, start: IPv4)
    | LookFirst(first: nat, start: IPv4)
    | ReadNext(first: nat, start: IPv4)
    | SwapNext(first: nat, start: IPv4, seen: nat)
    | LookNext(first: nat, start: IPv4, last: nat, ip: IPv4)
  {
    predicate Locked() {
      LookFirst? || ReadNext? || SwapNext? || LookNext?
    }

    predicate Started() {
      Waiting? || Locked()
    }
  }

  datatype Event =
    | Returned(who: Caller, ip: IPv4)
    | ReturnedNil(who: Caller)
    | Retrieved(key: string)
    | Marked(key: string)
  {
    /** The pool key that the event takes. */
    function Takes(): Option<string> {
      match this
      case Returned(_, ip) => Some(Dotted(ip))
      case Marked(key) => Some(key)
      case _ => None
    }
  }

  /**
   `draws` records who made each draw from the counter, `log` what callers saw,
   `logged` how long the log was at each draw, and `lockedAt` how many draws there were
   when the lock was last taken.
   */
  datatype State = State(
    counter: nat,
    lock: Option<Caller>,
    lockedAt: nat,
    pool: set<string>,
    phases: map<Caller, Phase>,
    draws: seq<Caller>,
    logged: seq<nat>,
    log: seq<Event>)
  {
    function PhaseOf(t: Caller): Phase {
      if t in phases then phases[t] else Idle
    }

    function At(t: Caller, p: Phase): State {
      this.(phases := phases[t := p])
    }
  }

  datatype Action =
    | Begin(t: Caller)
    | Read(t: Caller)
    | Swap(t: Caller)
    | Lock(t: Caller)
    | Look(t: Caller)
    | Retrieve(key: string)
    | Mark(key: string)

  function Init(n: Subnet): State {
    State(0, None, 0, {Dotted(n.net), Dotted(BroadcastIP(n))}, map[], [], [], [])
  }

  predicate Enabled(s: State, a: Action) {
    match a
    case Begin(t) => s.PhaseOf(t).Idle?
    case Read(t) => s.PhaseOf(t).ReadFirst? || s.PhaseOf(t).ReadNext?
    case Swap(t) => s.PhaseOf(t).SwapFirst? || s.PhaseOf(t).SwapNext?
    case Lock(t) => s.PhaseOf(t).Waiting? && s.lock.None?
    case Look(t) => s.PhaseOf(t).LookFirst? || s.PhaseOf(t).LookNext?
    case Retrieve(_) => s.lock.None?
    case Mark(_) => s.lock.None?
  }

  function ReadStep(s: State, t: Caller): State
    requires Enabled(s, Read(t))
  {
    var p := s.PhaseOf(t);
    if p.ReadFirst? then s.At(t, SwapFirst(s.counter))
    else s.At(t, SwapNext(p.first, p.start, s.counter))
  }

  /** A swap succeeds exactly when the counter still shows what was read. */
  function SwapStep(n: Subnet, s: State, t: Caller): State
    requires Enabled(s, Swap(t))
  {
    var p := s.PhaseOf(t);
    if p.seen != s.counter then
      s.At(t, if p.SwapFirst? then ReadFirst else ReadNext(p.first, p.start))
    else
      var d := |s.draws|;
      var ip := AddressAt(n, p.seen);
      s.At(t, if p.SwapFirst? then Waiting(d, ip) else LookNext(p.first, p.start, d, ip))
      .(counter := Wrapped(s.counter + 1), draws := s.draws + [t], logged := s.logged + [|s.log|])
  }

  function Grant(s: State, t: Caller, ip: IPv4): State {
    s.At(t, Idle).(lock := None, pool := s.pool + {Dotted(ip)}, log := s.log + [Returned(t, ip)])
  }

  function LookStep(s: State, t: Caller): State
    requires Enabled(s, Look(t))
  {
    var p := s.PhaseOf(t);
    var ip := if p.LookFirst? then p.start else p.ip;
    if Dotted(ip) !in s.pool then Grant(s, t, ip)
    else if p.LookNext? && p.start == ip then s.At(t, Idle).(lock := None, log := s.log + [ReturnedNil(t)])
    else s.At(t, ReadNext(p.first, p.start))
  }

  function Apply(n: Subnet, s: State, a: Action): State
    requires Enabled(s, a)
  {
    match a
    case Begin(t) => s.At(t, ReadFirst)
    case Read(t) => ReadStep(s, t)
    case Swap(t) => SwapStep(n, s, t)
    case Lock(t) => s.At(t, LookFirst(s.PhaseOf(t).first, s.PhaseOf(t).start)).(lock := Some(t), lockedAt := |s.draws|)
    case Look(t) => LookStep(s, t)
    case Retrieve(key) =>
      if key in s.pool then s.(pool := s.pool - {key}, log := s.log + [Retrieved(key)]) else s
    case Mark(key) => s.(pool := s.pool + {key}, log := s.log + [Marked(key)])
  }

  /** `s` is reached from the initial state by the steps of `run`. */
  ghost predicate Reaches(n: Subnet, run: seq<Action>, s: State) {
    if run == [] then s == Init(n)
    else
      var last := |run| - 1;
      exists p :: Reaches(n, run[..last], p) && Enabled(p, run[last]) && s == Apply(n, p, run[last])
  }

  // ----- The invariant

  /** A started caller's variables came from its own draws. */
  predicate PhaseOk(n: Subnet, s: State, t: Caller) {
    var p := s.PhaseOf(t);
    && (p.Started() ==> OwnDraw(n, s, t, p.first, p.start))
    && (p.LookNext? ==> p.first < p.last && OwnDraw(n, s, t, p.last, p.ip))
    && (p.Locked() ==> s.lock == Some(t))
  }

  predicate OwnDraw(n: Subnet, s: State, t: Caller, d: nat, ip: IPv4) {
    d < |s.draws| && s.draws[d] == t && ip == AddressAt(n, d)
  }

  /** The draw the caller has not looked up yet. */
  predicate AtHand(p: Phase, d: nat) {
    match p
    case Waiting(first, _) => d == first
    case LookFirst(first, _) => d == first
    case LookNext(_, _, last, _) => d == last
    case _ => false
  }

  /** Since its first draw, a caller found each of its draws taken, except the one at hand. */
  predicate Looked(n: Subnet, s: State, t: Caller) {
    var p := s.PhaseOf(t);
    p.Started() ==>
      forall d :: p.first <= d < |s.draws| && s.draws[d] == t ==>
        AtHand(p, d) || (!p.Waiting? && !p.LookFirst? && Dotted(AddressAt(n, d)) in s.pool)
  }

  /** The lock is held only by a caller inside the critical section. */
  predicate LockOk(s: State) {
    s.lock.Some? ==> s.PhaseOf(s.lock.value).Locked()
  }

  ghost predicate Retrieves(log: seq<Event>, key: string, from: nat, to: nat)
    requires to <= |log|
  {
    exists k :: from <= k < to && log[k] == Retrieved(key)
  }

  /** An address handed out or marked as allocated and not given back is in the pool. */
  ghost predicate GrantsHeld(s: State) {
    forall i :: 0 <= i < |s.log| && s.log[i].Takes().Some? ==>
      s.log[i].Takes().value in s.pool || Retrieves(s.log, s.log[i].Takes().value, i, |s.log|)
  }

  /** No address is handed out after it was handed out or marked, without being given back in between. */
  ghost predicate NoDoubleGrant(log: seq<Event>) {
    forall i, j :: 0 <= i < j < |log| && log[j].Returned? && log[i].Takes() == log[j].Takes() ==>
      Retrieves(log, log[j].Takes().value, i, j)
  }

  /** A reserved address stays in the pool and is never handed out unless somebody gives it back. */
  ghost predicate Reserved(s: State, ip: IPv4) {
    Retrieves(s.log, Dotted(ip), 0, |s.log|) ||
    (Dotted(ip) in s.pool && forall i :: 0 <= i < |s.log| && s.log[i].Returned? ==> s.log[i].ip != ip)
  }

  /** The part of the invariant about callers, the counter and the lock. */
  ghost predicate CallersOk(n: Subnet, s: State) {
    && s.counter == Wrapped(|s.draws|)
    && LockOk(s)
    && forall t: Caller :: PhaseOk(n, s, t) && Looked(n, s, t)
  }

  /** The part about what was handed out. */
  ghost predicate GrantsOk(n: Subnet, s: State) {
    && GrantsHeld(s)
    && NoDoubleGrant(s.log)
    && Reserved(s, n.net)
    && Reserved(s, BroadcastIP(n))
  }

  /** A drawn address is still to be looked up, or in the pool, or was given back since the draw. */
  ghost predicate Accounted(n: Subnet, s: State, d: nat)
    requires d < |s.draws| && |s.logged| == |s.draws|
  {
    var key := Dotted(AddressAt(n, d));
    AtHand(s.PhaseOf(s.draws[d]), d) || key in s.pool || Retrieves(s.log, key, s.logged[d], |s.log|)
  }

  /** The part about the draws: the log only grows, and every draw is accounted for. */
  ghost predicate DrawsOk(n: Subnet, s: State) {
    && |s.logged| == |s.draws|
    && (forall d :: 0 <= d < |s.logged| ==> s.logged[d] <= |s.log|)
    && (forall c, d :: 0 <= c < d < |s.logged| ==> s.logged[c] <= s.logged[d])
    && (forall d: nat :: d < |s.draws| ==> Accounted(n, s, d))
  }

  ghost predicate Inv(n: Subnet, s: State) {
    CallersOk(n, s) && GrantsOk(n, s) && DrawsOk(n, s)
  }

  // ----- Every step keeps the invariant

  lemma BeginKeeps(n: Subnet, s: State, t: Caller)
    requires CallersOk(n, s) && Enabled(s, Begin(t))
    ensures CallersOk(n, Apply(n, s, Begin(t)))
  {
    hide AddressAt, Dotted, Wrapped;
    var s' := Apply(n, s, Begin(t));
    forall u: Caller ensures PhaseOk(n, s', u) && Looked(n, s', u) {
      assert PhaseOk(n, s, u) && Looked(n, s, u);
    }
    assert PhaseOk(n, s, t);
  }

  lemma ReadKeeps(n: Subnet, s: State, t: Caller)
    requires CallersOk(n, s) && Enabled(s, Read(t))
    ensures CallersOk(n, Apply(n, s, Read(t)))
  {
    hide AddressAt, Dotted, Wrapped;
    var s' := Apply(n, s, Read(t));
    forall u: Caller ensures PhaseOk(n, s', u) && Looked(n, s', u) {
      assert PhaseOk(n, s, u) && Looked(n, s, u);
    }
    assert PhaseOk(n, s, t);
  }

  lemma LockKeeps(n: Subnet, s: State, t: Caller)
    requires CallersOk(n, s) && Enabled(s, Lock(t))
    ensures CallersOk(n, Apply(n, s, Lock(t)))
  {
    hide AddressAt, Dotted, Wrapped;
    var s' := Apply(n, s, Lock(t));
    forall u: Caller ensures PhaseOk(n, s', u) && Looked(n, s', u) {
      assert PhaseOk(n, s, u) && Looked(n, s, u);
    }
  }

  lemma SwapKeeps(n: Subnet, s: State, t: Caller)
    requires n.Valid() && CallersOk(n, s) && Enabled(s, Swap(t))
    ensures CallersOk(n, Apply(n, s, Swap(t)))
  {
    hide AddressAt, Dotted, Wrapped;
    var s' := Apply(n, s, Swap(t));
    WrapInvisible(n, |s.draws|);
    WrappedTwice(|s.draws|, 1);
    assert PhaseOk(n, s, t) && Looked(n, s, t);
    forall u: Caller ensures PhaseOk(n, s', u) {
      assert PhaseOk(n, s, u);
    }
    forall u: Caller ensures Looked(n, s', u) {
      assert Looked(n, s, u) && PhaseOk(n, s, u);
      SwapLooked(n, s, t, u);
    }
  }

  lemma SwapLooked(n: Subnet, s: State, t: Caller, u: Caller)
    requires Enabled(s, Swap(t)) && Looked(n, s, u) && PhaseOk(n, s, u)
    ensures Looked(n, SwapStep(n, s, t), u)
  {
    hide AddressAt, Dotted, Wrapped;
  }

  /** A caller that leaves the lock, with the pool and the log changed in any way. */
  lemma LeaveKeeps(n: Subnet, s: State, t: Caller, pool: set<string>, log: seq<Event>)
    requires CallersOk(n, s) && s.PhaseOf(t).Locked()
    ensures CallersOk(n, s.At(t, Idle).(lock := None, pool := pool, log := log))
  {
    hide AddressAt, Dotted, Wrapped;
    var s' := s.At(t, Idle).(lock := None, pool := pool, log := log);
    assert PhaseOk(n, s, t);
    forall u: Caller ensures PhaseOk(n, s', u) && Looked(n, s', u) {
      assert PhaseOk(n, s, u);
    }
  }

  lemma LookKeeps(n: Subnet, s: State, t: Caller)
    requires CallersOk(n, s) && Enabled(s, Look(t))
    ensures CallersOk(n, Apply(n, s, Look(t)))
  {
    hide AddressAt, Dotted, Wrapped;
    var p := s.PhaseOf(t);
    var ip := if p.LookFirst? then p.start else p.ip;
    assert PhaseOk(n, s, t) && Looked(n, s, t);
    if Dotted(ip) !in s.pool {
      LeaveKeeps(n, s, t, s.pool + {Dotted(ip)}, s.log + [Returned(t, ip)]);
    } else if p.LookNext? && p.start == ip {
      LeaveKeeps(n, s, t, s.pool, s.log + [ReturnedNil(t)]);
    } else {
      ContinueKeeps(n, s, t);
    }
  }

  /** A taken address sends the caller back to the counter. */
  lemma ContinueKeeps(n: Subnet, s: State, t: Caller)
    requires CallersOk(n, s) && (s.PhaseOf(t).LookFirst? || s.PhaseOf(t).LookNext?)
    requires Dotted(if s.PhaseOf(t).LookFirst? then s.PhaseOf(t).start else s.PhaseOf(t).ip) in s.pool
    ensures CallersOk(n, s.At(t, ReadNext(s.PhaseOf(t).first, s.PhaseOf(t).start)))
  {
    hide AddressAt, Dotted, Wrapped;
    var s' := s.At(t, ReadNext(s.PhaseOf(t).first, s.PhaseOf(t).start));
    assert PhaseOk(n, s, t) && Looked(n, s, t);
    forall u: Caller ensures PhaseOk(n, s', u) && Looked(n, s', u) {
      assert PhaseOk(n, s, u) && Looked(n, s, u);
    }
  }

  /** Outside the lock nobody depends on the pool. */
  lemma PoolChangeKeeps(n: Subnet, s: State, pool: set<string>, log: seq<Event>)
    requires CallersOk(n, s) && s.lock.None?
    ensures CallersOk(n, s.(pool := pool, log := log))
  {
    hide AddressAt, Dotted, Wrapped;
    var s' := s.(pool := pool, log := log);
    forall u: Caller ensures PhaseOk(n, s', u) && Looked(n, s', u) {
      assert PhaseOk(n, s, u) && Looked(n, s, u);
    }
  }

  lemma CallersKept(n: Subnet, s: State, a: Action)
    requires n.Valid() && CallersOk(n, s) && Enabled(s, a)
    ensures CallersOk(n, Apply(n, s, a))
  {
    hide AddressAt, Dotted, Wrapped, CallersOk;
    match a
    case Begin(t) => BeginKeeps(n, s, t);
    case Read(t) => ReadKeeps(n, s, t);
    case Swap(t) => SwapKeeps(n, s, t);
    case Lock(t) => LockKeeps(n, s, t);
    case Look(t) => LookKeeps(n, s, t);
    case Retrieve(key) => PoolChangeKeeps(n, s, s.pool - {key}, s.log + [Retrieved(key)]);
    case Mark(key) => PoolChangeKeeps(n, s, s.pool + {key}, s.log + [Marked(key)]);
  }

  // ----- What is handed out

  lemma RetrievesMore(log: seq<Event>, e: Event, key: string, from: nat, to: nat)
    requires to <= |log| && Retrieves(log, key, from, to)
    ensures Retrieves(log + [e], key, from, to) && Retrieves(log + [e], key, from, |log| + 1)
  {
    var k :| from <= k < to && log[k] == Retrieved(key);
    assert (log + [e])[k] == Retrieved(key);
  }

  /** Handing out an address that is not in the pool. */
  lemma GrantKeeps(n: Subnet, s: State, t: Caller, ip: IPv4)
    requires GrantsOk(n, s) && Dotted(ip) !in s.pool
    ensures GrantsOk(n, Grant(s, t, ip))
  {
    hide Dotted, BroadcastIP;
    var s' := Grant(s, t, ip);
    GrantLog(s, t, ip);
    GrantReserved(s, t, ip, n.net);
    GrantReserved(s, t, ip, BroadcastIP(n));
  }

  lemma GrantLog(s: State, t: Caller, ip: IPv4)
    requires GrantsHeld(s) && NoDoubleGrant(s.log) && Dotted(ip) !in s.pool
    ensures GrantsHeld(Grant(s, t, ip)) && NoDoubleGrant(Grant(s, t, ip).log)
  {
    hide Dotted;
    var s', m := Grant(s, t, ip), |s.log|;
    assert s'.log[m].Takes() == Some(Dotted(ip));
    forall i | 0 <= i < m && s.log[i].Takes().Some?
      ensures s.log[i].Takes().value in s'.pool || Retrieves(s'.log, s.log[i].Takes().value, i, m + 1)
      ensures s.log[i].Takes() == Some(Dotted(ip)) ==> Retrieves(s'.log, Dotted(ip), i, m)
    {
      var key := s.log[i].Takes().value;
      if Retrieves(s.log, key, i, m) { RetrievesMore(s.log, Returned(t, ip), key, i, m); }
    }
    OldGrants(s.log, Returned(t, ip));
  }

  /** Grants that were separated stay separated. */
  lemma OldGrants(log: seq<Event>, e: Event)
    requires NoDoubleGrant(log)
    ensures forall i, j :: 0 <= i < j < |log| && log[j].Returned? && log[i].Takes() == log[j].Takes() ==>
              Retrieves(log + [e], log[j].Takes().value, i, j)
  {
    hide Dotted;
    forall i, j | 0 <= i < j < |log| && log[j].Returned? && log[i].Takes() == log[j].Takes()
      ensures Retrieves(log + [e], log[j].Takes().value, i, j)
    {
      RetrievesMore(log, e, log[j].Takes().value, i, j);
    }
  }

  lemma GrantReserved(s: State, t: Caller, ip: IPv4, r: IPv4)
    requires Reserved(s, r) && Dotted(ip) !in s.pool
    ensures Reserved(Grant(s, t, ip), r)
  {
    hide Dotted;
    if Retrieves(s.log, Dotted(r), 0, |s.log|) {
      RetrievesMore(s.log, Returned(t, ip), Dotted(r), 0, |s.log|);
    }
  }

  /** The step from `s` to `s'` logs `e`, which hands out nothing; the pool loses only what `e` gives back. */
  predicate Logs(s: State, e: Event, s': State) {
    && !e.Returned? && s'.log == s.log + [e] && (e.Marked? ==> e.key in s'.pool)
    && forall key :: key in s.pool ==> key in s'.pool || e == Retrieved(key)
  }

  lemma OtherEventKeeps(n: Subnet, s: State, e: Event, s': State)
    requires GrantsOk(n, s) && Logs(s, e, s')
    ensures GrantsOk(n, s')
  {
    hide Dotted, BroadcastIP, Logs;
    OtherEventLog(s, e, s');
    OtherEventReserved(s, e, s', n.net);
    OtherEventReserved(s, e, s', BroadcastIP(n));
  }

  lemma OtherEventLog(s: State, e: Event, s': State)
    requires GrantsHeld(s) && NoDoubleGrant(s.log) && Logs(s, e, s')
    ensures GrantsHeld(s') && NoDoubleGrant(s'.log)
  {
    hide Dotted;
    var m := |s.log|;
    assert s'.log[m] == e;
    forall i | 0 <= i < m && s.log[i].Takes().Some?
      ensures s.log[i].Takes().value in s'.pool || Retrieves(s'.log, s.log[i].Takes().value, i, m + 1)
    {
      var key := s.log[i].Takes().value;
      if Retrieves(s.log, key, i, m) { RetrievesMore(s.log, e, key, i, m); }
    }
    OldGrants(s.log, e);
  }

  lemma OtherEventReserved(s: State, e: Event, s': State, r: IPv4)
    requires Reserved(s, r) && Logs(s, e, s')
    ensures Reserved(s', r)
  {
    hide Dotted;
    assert s'.log[|s.log|] == e;
    if Retrieves(s.log, Dotted(r), 0, |s.log|) {
      RetrievesMore(s.log, e, Dotted(r), 0, |s.log|);
    }
  }

  lemma SameLogKeeps(n: Subnet, s: State, s': State)
    requires GrantsOk(n, s) && s'.log == s.log && s.pool <= s'.pool
    ensures GrantsOk(n, s')
  {
    hide Dotted, BroadcastIP;
  }

  lemma GrantsKept(n: Subnet, s: State, a: Action)
    requires GrantsOk(n, s) && Enabled(s, a)
    ensures GrantsOk(n, Apply(n, s, a))
  {
    hide AddressAt, Dotted, Wrapped, GrantsOk;
    var s' := Apply(n, s, a);
    if a.Look? {
      LookGrants(n, s, a.t);
    } else if a.Retrieve? && a.key in s.pool {
      OtherEventKeeps(n, s, Retrieved(a.key), s');
    } else if a.Mark? {
      OtherEventKeeps(n, s, Marked(a.key), s');
    } else {
      SameLogKeeps(n, s, s');
    }
  }

  lemma LookGrants(n: Subnet, s: State, t: Caller)
    requires GrantsOk(n, s) && Enabled(s, Look(t))
    ensures GrantsOk(n, LookStep(s, t))
  {
    hide Dotted, GrantsOk;
    var p := s.PhaseOf(t);
    var ip := if p.LookFirst? then p.start else p.ip;
    if Dotted(ip) !in s.pool {
      GrantKeeps(n, s, t, ip);
    } else if p.LookNext? && p.start == ip {
      OtherEventKeeps(n, s, ReturnedNil(t), LookStep(s, t));
    } else {
      SameLogKeeps(n, s, LookStep(s, t));
    }
  }

  // ----- What became of each draw

  /** A step that draws nothing: the log grows, and a draw no longer at hand is in the pool. */
  lemma NoDrawKeeps(n: Subnet, s: State, s': State)
    requires DrawsOk(n, s) && s'.draws == s.draws && s'.logged == s.logged && s.log <= s'.log
    requires forall d: nat :: d < |s.draws| && AtHand(s.PhaseOf(s.draws[d]), d) ==>
               AtHand(s'.PhaseOf(s.draws[d]), d) || Dotted(AddressAt(n, d)) in s'.pool
    requires forall key :: key in s.pool ==> key in s'.pool || Retrieves(s'.log, key, |s.log|, |s'.log|)
    ensures DrawsOk(n, s')
  {
    hide Dotted, AddressAt, AtHand;
    forall d: nat | d < |s.draws| ensures Accounted(n, s', d) {
      assert Accounted(n, s, d);
      var key := Dotted(AddressAt(n, d));
      if Retrieves(s.log, key, s.logged[d], |s.log|) {
        var k :| s.logged[d] <= k < |s.log| && s.log[k] == Retrieved(key);
        assert s'.log[k] == Retrieved(key);
      }
    }
  }

  /** A successful swap puts a new draw at hand. */
  lemma DrawKeeps(n: Subnet, s: State, t: Caller)
    requires DrawsOk(n, s) && Enabled(s, Swap(t)) && s.PhaseOf(t).seen == s.counter
    ensures DrawsOk(n, SwapStep(n, s, t))
  {
    hide Dotted, AddressAt, Wrapped;
    var s' := SwapStep(n, s, t);
    forall d: nat | d < |s'.draws| ensures Accounted(n, s', d) {
      if d < |s.draws| {
        assert Accounted(n, s, d);
        assert s'.draws[d] == s.draws[d] && s'.logged[d] == s.logged[d];
      }
    }
  }

  lemma LookDraws(n: Subnet, s: State, t: Caller)
    requires DrawsOk(n, s) && PhaseOk(n, s, t) && Enabled(s, Look(t))
    ensures DrawsOk(n, LookStep(s, t))
  {
    hide Dotted, AddressAt, DrawsOk;
    NoDrawKeeps(n, s, LookStep(s, t));
  }

  lemma RetrieveDraws(n: Subnet, s: State, key: string)
    requires DrawsOk(n, s) && Enabled(s, Retrieve(key))
    ensures DrawsOk(n, Apply(n, s, Retrieve(key)))
  {
    hide Dotted, AddressAt, DrawsOk;
    var s' := Apply(n, s, Retrieve(key));
    if key in s.pool { assert s'.log[|s.log|] == Retrieved(key); }
    NoDrawKeeps(n, s, s');
  }

  lemma DrawsKept(n: Subnet, s: State, a: Action)
    requires CallersOk(n, s) && DrawsOk(n, s) && Enabled(s, a)
    ensures DrawsOk(n, Apply(n, s, a))
  {
    hide AddressAt, Dotted, Wrapped, DrawsOk;
    match a
    case Look(t) =>
      assert PhaseOk(n, s, t);
      LookDraws(n, s, t);
    case Retrieve(key) => RetrieveDraws(n, s, key);
    case Swap(t) =>
      if s.PhaseOf(t).seen == s.counter { DrawKeeps(n, s, t); } else { NoDrawKeeps(n, s, Apply(n, s, a)); }
    case _ => NoDrawKeeps(n, s, Apply(n, s, a));
  }

  // ----- Results over whole runs

  lemma InitOk(n: Subnet)
    ensures Inv(n, Init(n))
  {
    hide Dotted, BroadcastIP, AddressAt;
    WrappedFits(0);
  }

  /** The invariant holds in every reachable state. */
  lemma {:induction false} Reachable(n: Subnet, run: seq<Action>, s: State)
    requires n.Valid() && Reaches(n, run, s)
    ensures Inv(n, s)
    decreases |run|
  {
    hide CallersOk, GrantsOk, DrawsOk, Enabled, Apply, Init;
    if run == [] {
      InitOk(n);
    } else {
      var last := |run| - 1;
      var p :| Reaches(n, run[..last], p) && Enabled(p, run[last]) && s == Apply(n, p, run[last]);
      Reachable(n, run[..last], p);
      CallersKept(n, p, run[last]);
      GrantsKept(n, p, run[last]);
      DrawsKept(n, p, run[last]);
    }
  }

  /**
   No interleaving hands out an address that was handed out or marked as allocated
   before, without it being given back in between.
   */
  lemma NoAddressTwice(n: Subnet, run: seq<Action>, s: State, i: nat, j: nat)
    requires n.Valid() && Reaches(n, run, s) && i < j < |s.log| && s.log[j].Returned?
    requires (s.log[i].Returned? && s.log[i].ip == s.log[j].ip) || s.log[i] == Marked(Dotted(s.log[j].ip))
    ensures exists k :: i < k < j && s.log[k] == Retrieved(Dotted(s.log[j].ip))
  {
    hide CallersOk, DrawsOk, Dotted, Reaches;
    Reachable(n, run, s);
    assert s.log[i].Takes() == s.log[j].Takes();
    var k :| i <= k < j && s.log[k] == Retrieved(Dotted(s.log[j].ip));
    assert k != i;
  }

  /** The network and broadcast addresses are never handed out unless somebody gives them back. */
  lemma ReservedNeverAssigned(n: Subnet, run: seq<Action>, s: State, i: nat)
    requires n.Valid() && Reaches(n, run, s) && i < |s.log| && s.log[i].Returned?
    requires s.log[i].ip in {n.net, BroadcastIP(n)}
    ensures Retrieved(Dotted(s.log[i].ip)) in s.log
  {
    hide CallersOk, Dotted, BroadcastIP, Reaches;
    Reachable(n, run, s);
  }

  /** The caller that holds the lock can always take its next step. */
  lemma HolderNotBlocked(n: Subnet, run: seq<Action>, s: State, t: Caller)
    requires n.Valid() && Reaches(n, run, s) && s.lock == Some(t)
    ensures Enabled(s, Read(t)) || Enabled(s, Swap(t)) || Enabled(s, Look(t))
  {
    hide GrantsOk, Dotted, AddressAt, Reaches;
    Reachable(n, run, s);
  }

  /** Another caller drew `ip` from the counter after draw `first`. */
  ghost predicate DrawnByOther(n: Subnet, s: State, t: Caller, first: nat, ip: IPv4) {
    exists d: nat :: first < d < |s.draws| && s.draws[d] != t && AddressAt(n, d) == ip
  }

  /** The call of `t` gives up in its next step. */
  predicate GivesUp(s: State, t: Caller) {
    Enabled(s, Look(t)) && LookStep(s, t).log == s.log + [ReturnedNil(t)]
  }

  lemma NilStep(s: State, t: Caller)
    requires GivesUp(s, t)
    ensures var p := s.PhaseOf(t); p.LookNext? && p.start == p.ip && Dotted(p.ip) in s.pool
    ensures LookStep(s, t).pool == s.pool
  {
    hide Dotted;
    assert LookStep(s, t).log[|s.log|] == ReturnedNil(t);
  }

  /**
   When a call gives up, every address of the subnet is in the pool at that moment or
   was drawn by another caller since this call's first draw.
   */
  lemma NilMeansTakenOrDrawn(n: Subnet, run: seq<Action>, s: State, t: Caller, ip: IPv4)
    requires n.Valid() && Reaches(n, run, s) && GivesUp(s, t) && n.Contains(ip)
    ensures Dotted(ip) in LookStep(s, t).pool || DrawnByOther(n, s, t, s.PhaseOf(t).first, ip)
  {
    hide GrantsOk, Dotted, AddressAt, Reaches, Wrapped, Distance;
    Reachable(n, run, s);
    assert PhaseOk(n, s, t) && Looked(n, s, t);
    var p := s.PhaseOf(t);
    NilStep(s, t);
    CycleClosed(n, p.first, p.last);
    var k := Distance(n, p.first + 1, ip);
    var d := p.first + 1 + k;
    DrawsCoverSubnet(n, p.first + 1, ip, k);
    WrapInvisible(n, d);
    assert AddressAt(n, d) == ip && p.first < d <= p.last;
  }

  /** A caller meets its first address again only after a full cycle of draws. */
  lemma CycleClosed(n: Subnet, first: nat, last: nat)
    requires n.Valid() && first < last && AddressAt(n, first) == AddressAt(n, last)
    ensures first + n.Size() <= last
  {
    hide AddressAt;
    if last < first + n.Size() {
      DrawsDistinct(n, first, last - first);
    }
  }

  /** Another caller has drawn `ip` and waits for the lock to look it up. */
  predicate WaitsWith(s: State, u: Caller, ip: IPv4) {
    s.PhaseOf(u).Waiting? && s.PhaseOf(u).start == ip
  }

  /** The address was given back since the first draw of the call. */
  ghost predicate GivenBack(s: State, t: Caller, ip: IPv4) {
    Retrieves(s.log, Dotted(ip), CallStart(s, t), |s.log|)
  }

  /** The length of the log at the first draw of a call. */
  function CallStart(s: State, t: Caller): nat {
    var p := s.PhaseOf(t);
    if p.Started() && p.first < |s.logged| then s.logged[p.first] else 0
  }

  /**
   When a call gives up although an address is free, another caller waits for the lock
   with that address in hand, or it was given back since the call's first draw.
   */
  lemma FreeAtNil(n: Subnet, run: seq<Action>, s: State, t: Caller, ip: IPv4)
    requires n.Valid() && Reaches(n, run, s) && GivesUp(s, t)
    requires n.Contains(ip) && Dotted(ip) !in LookStep(s, t).pool
    ensures (exists u: Caller :: u != t && WaitsWith(s, u, ip)) || GivenBack(s, t, ip)
  {
    hide GrantsOk, Dotted, AddressAt, Reaches, Wrapped;
    Reachable(n, run, s);
    NilStep(s, t);
    NilMeansTakenOrDrawn(n, run, s, t, ip);
    var first := s.PhaseOf(t).first;
    var d: nat :| first < d < |s.draws| && s.draws[d] != t && AddressAt(n, d) == ip;
    var u := s.draws[d];
    assert Accounted(n, s, d) && PhaseOk(n, s, u) && PhaseOk(n, s, t);
    if AtHand(s.PhaseOf(u), d) {
      assert WaitsWith(s, u, ip);
    } else {
      var k :| s.logged[d] <= k < |s.log| && s.log[k] == Retrieved(Dotted(ip));
      assert s.logged[first] <= k;
    }
  }

  /** The waiting callers hold subnet addresses. */
  lemma WaitsInSubnet(n: Subnet, run: seq<Action>, s: State, u: Caller)
    requires n.Valid() && Reaches(n, run, s) && s.PhaseOf(u).Waiting?
    ensures n.Contains(s.PhaseOf(u).start)
  {
    hide GrantsOk, DrawsOk, Dotted, AddressAt, Reaches;
    Reachable(n, run, s);
    assert PhaseOk(n, s, u);
    DrawnInSubnet(n, s.PhaseOf(u).first);
  }

  /**
   Giving up is truthful exactly when no waiting caller holds a free address and nothing
   that was given back since the call's first draw is still free.
   */
  lemma NilTruthfulExactly(n: Subnet, run: seq<Action>, s: State, t: Caller)
    requires n.Valid() && Reaches(n, run, s) && GivesUp(s, t)
    ensures AllTaken(n, LookStep(s, t).pool) <==>
            && (forall u: Caller :: s.PhaseOf(u).Waiting? ==> Dotted(s.PhaseOf(u).start) in s.pool)
            && (forall ip: IPv4 :: n.Contains(ip) && GivenBack(s, t, ip) ==> Dotted(ip) in s.pool)
  {
    hide Reaches, AddressAt, Dotted, GivenBack;
    NilStep(s, t);
    forall u: Caller | s.PhaseOf(u).Waiting? ensures n.Contains(s.PhaseOf(u).start) { WaitsInSubnet(n, run, s, u); }
    forall ip: IPv4 | n.Contains(ip) && Dotted(ip) !in s.pool
      ensures (exists u: Caller :: u != t && WaitsWith(s, u, ip)) || GivenBack(s, t, ip)
    {
      FreeAtNil(n, run, s, t, ip);
    }
  }

  /** Without addresses given back meanwhile, only callers waiting with a free address can make it untruthful. */
  lemma NilTruthfulWithoutReturns(n: Subnet, run: seq<Action>, s: State, t: Caller)
    requires n.Valid() && Reaches(n, run, s) && GivesUp(s, t)
    requires forall k :: CallStart(s, t) <= k < |s.log| ==> !s.log[k].Retrieved?
    ensures AllTaken(n, LookStep(s, t).pool) <==>
            forall u: Caller :: s.PhaseOf(u).Waiting? ==> Dotted(s.PhaseOf(u).start) in s.pool
  {
    hide Reaches, AddressAt, Dotted, LookStep, GivesUp, AllTaken;
    NilTruthfulExactly(n, run, s, t);
  }

  /** A call that gives up with nobody else drawing meanwhile is truthful. */
  lemma NilTruthfulAlone(n: Subnet, run: seq<Action>, s: State, t: Caller)
    requires n.Valid() && Reaches(n, run, s) && GivesUp(s, t)
    requires forall d :: s.PhaseOf(t).first < d < |s.draws| ==> s.draws[d] == t
    ensures AllTaken(n, LookStep(s, t).pool)
  {
    hide Reaches, AddressAt, Dotted;
    forall ip: IPv4 | n.Contains(ip) ensures Dotted(ip) in LookStep(s, t).pool {
      NilMeansTakenOrDrawn(n, run, s, t, ip);
    }
  }

  // ----- A run in which a call gives up although an address is free

  lemma Extend(n: Subnet, run: seq<Action>, s: State, a: Action)
    requires Reaches(n, run, s) && Enabled(s, a)
    ensures Reaches(n, run + [a], Apply(n, s, a))
  {
    hide Enabled, Apply, Init;
    assert (run + [a])[..|run|] == run;
  }

  lemma StartReached(n: Subnet)
    ensures Reaches(n, [], Init(n))
  {
  }

  /** Caller `t`, inside the lock, draws the next address. */
  lemma Draws(n: Subnet, run: seq<Action>, s: State, t: Caller) returns (r: seq<Action>, s': State)
    requires n.Valid() && Reaches(n, run, s) && s.PhaseOf(t).ReadNext?
    ensures Reaches(n, r, s') && r == run + [Read(t)] + [Swap(t)]
    ensures var p, d := s.PhaseOf(t), |s.draws|;
            s' == s.At(t, LookNext(p.first, p.start, d, AddressAt(n, d)))
            .(counter := Wrapped(d + 1), draws := s.draws + [t], logged := s.logged + [|s.log|])
  {
    hide AddressAt, Dotted, Wrapped, Reaches;
    Reachable(n, run, s);
    Extend(n, run, s, Read(t));
    var s1 := Apply(n, s, Read(t));
    Extend(n, run + [Read(t)], s1, Swap(t));
    WrapInvisible(n, |s.draws|);
    WrappedTwice(|s.draws|, 1);
    r, s' := run + [Read(t)] + [Swap(t)], Apply(n, s1, Swap(t));
    assert s'.phases == s.At(t, s'.PhaseOf(t)).phases;
  }

  /** Caller `t`, not yet started, makes its first draw. */
  lemma DrawsFirst(n: Subnet, run: seq<Action>, s: State, t: Caller) returns (r: seq<Action>, s': State)
    requires n.Valid() && Reaches(n, run, s) && s.PhaseOf(t).Idle?
    ensures Reaches(n, r, s') && r == run + [Begin(t)] + [Read(t)] + [Swap(t)]
    ensures var d := |s.draws|;
            s' == s.At(t, Waiting(d, AddressAt(n, d)))
            .(counter := Wrapped(d + 1), draws := s.draws + [t], logged := s.logged + [|s.log|])
  {
    hide AddressAt, Dotted, Wrapped, Reaches;
    Reachable(n, run, s);
    Extend(n, run, s, Begin(t));
    var s1 := Apply(n, s, Begin(t));
    Extend(n, run + [Begin(t)], s1, Read(t));
    var s2 := Apply(n, s1, Read(t));
    Extend(n, run + [Begin(t)] + [Read(t)], s2, Swap(t));
    WrapInvisible(n, |s.draws|);
    WrappedTwice(|s.draws|, 1);
    r, s' := run + [Begin(t)] + [Read(t)] + [Swap(t)], Apply(n, s2, Swap(t));
    assert s'.phases == s.At(t, s'.PhaseOf(t)).phases;
  }

  /** Caller `t` draws the next address and finds it taken. */
  lemma FindsTaken(n: Subnet, run: seq<Action>, s: State, t: Caller) returns (r: seq<Action>, s': State)
    requires n.Valid() && Reaches(n, run, s) && s.PhaseOf(t).ReadNext?
    requires Dotted(AddressAt(n, |s.draws|)) in s.pool && AddressAt(n, |s.draws|) != s.PhaseOf(t).start
    ensures Reaches(n, r, s') && s'.PhaseOf(t) == s.PhaseOf(t)
    ensures s'.pool == s.pool && s'.log == s.log && s'.draws == s.draws + [t]
    ensures forall u :: u != t ==> s'.PhaseOf(u) == s.PhaseOf(u)
  {
    hide AddressAt, Dotted, Wrapped, Reaches;
    var r1, s1 := Draws(n, run, s, t);
    Extend(n, r1, s1, Look(t));
    r, s' := r1 + [Look(t)], Apply(n, s1, Look(t));
  }

  /** The four addresses of a /30 network, by draw. */
  lemma FourAddresses(n: Subnet)
    requires n.Valid() && n.prefix == 30
    ensures n.Size() == 4
    ensures AddressAt(n, 0) == n.net == AddressAt(n, 4) && AddressAt(n, 3) == BroadcastIP(n)
    ensures forall i, j :: 0 <= i < j < 4 ==> AddressAt(n, i) != AddressAt(n, j)
  {
    hide AddressAt, BroadcastIP, ToWord;
    assert n.Size() == 4;
    forall c: nat | c < 4 ensures ToWord(AddressAt(n, c)) == ToWord(n.net) + c {
      DrawnAddress(n, c);
    }
    DrawnAddress(n, 4);
    BroadcastAddress(n);
    WordInjective(AddressAt(n, 0), n.net);
    WordInjective(AddressAt(n, 4), n.net);
    WordInjective(AddressAt(n, 3), BroadcastIP(n));
  }

  /**
   In a /30 network with one host address marked as taken, caller 0 can give up while
   the other host address is free: caller 1 drew it and has not looked it up yet.
   */
  lemma NilWithFreeAddress(n: Subnet) returns (run: seq<Action>, s: State)
    requires n.Valid() && n.prefix == 30
    ensures Reaches(n, run, s) && GivesUp(s, 0) && WaitsWith(s, 1, AddressAt(n, 1))
    ensures n.Contains(AddressAt(n, 1)) && Dotted(AddressAt(n, 1)) !in LookStep(s, 0).pool
  {
    hide AddressAt, Dotted, Wrapped, Reaches, BroadcastIP;
    FourAddresses(n);
    DrawnInSubnet(n, 1);
    var mark := Mark(Dotted(AddressAt(n, 2)));
    run, s := Opening(n, mark);
    run, s := DrawsFirst(n, run, s, 1);
    assert WaitsWith(s, 1, AddressAt(n, 1));
    run, s := FindsTaken(n, run, s, 0);
    assert WaitsWith(s, 1, AddressAt(n, 1));
    run, s := FindsTaken(n, run, s, 0);
    assert WaitsWith(s, 1, AddressAt(n, 1));
    run, s := Draws(n, run, s, 0);
    if Dotted(AddressAt(n, 1)) in s.pool {
      FreeKey(n);
    }
  }

  lemma FreeKey(n: Subnet)
    requires n.Valid() && n.prefix == 30
    ensures Dotted(AddressAt(n, 1)) !in {Dotted(n.net), Dotted(BroadcastIP(n)), Dotted(AddressAt(n, 2))}
  {
    hide AddressAt, Dotted, BroadcastIP;
    FourAddresses(n);
    forall i: nat | i in {0, 2, 3} ensures Dotted(AddressAt(n, 1)) != Dotted(AddressAt(n, i)) {
      if Dotted(AddressAt(n, 1)) == Dotted(AddressAt(n, i)) { DottedInjective(AddressAt(n, 1), AddressAt(n, i)); }
    }
  }

  /** Caller 0 draws the network address, takes the lock and finds it taken. */
  lemma Opening(n: Subnet, mark: Action) returns (run: seq<Action>, s: State)
    requires n.Valid() && mark.Mark? && AddressAt(n, 0) == n.net
    ensures Reaches(n, run, s)
    ensures s.PhaseOf(0) == ReadNext(0, n.net) && s.PhaseOf(1).Idle? && s.draws == [0]
    ensures s.pool == {Dotted(n.net), Dotted(BroadcastIP(n)), mark.key}
  {
    hide AddressAt, Dotted, Wrapped, BroadcastIP, Reaches;
    var s0 := Init(n);
    StartReached(n);
    Extend(n, [], s0, mark);
    var r1, s1 := DrawsFirst(n, [] + [mark], Apply(n, s0, mark), 0);
    Extend(n, r1, s1, Lock(0));
    var s2 := Apply(n, s1, Lock(0));
    Extend(n, r1 + [Lock(0)], s2, Look(0));
    run, s := r1 + [Lock(0)] + [Look(0)], Apply(n, s2, Look(0));
  }
}
