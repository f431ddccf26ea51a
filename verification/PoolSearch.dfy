/**
 How long a caller of AssignNewIPv4 searches while it holds the lock. Every other caller
 can draw at most once meanwhile, because it then waits for the lock; so the search is
 bounded by the number of waiting callers.
 */
module PoolSearch {
  import opened Text
  import opened IpGenerator
  import opened PoolProtocol

  /** Draw `d` since the lock: another caller waits with it, or the holder `t` has passed it by. */
  predicate SearchDraw(n: Subnet, s: State, t: Caller, d: nat)
    requires s.PhaseOf(t).Locked() && d < |s.draws|
  {
    if s.draws[d] != t then s.PhaseOf(s.draws[d]) == Waiting(d, AddressAt(n, d))
    else AtHand(s.PhaseOf(t), d) || AddressAt(n, d) != s.PhaseOf(t).start
  }

  /** The holder's draw at hand is its latest. */
  predicate LatestAtHand(s: State, t: Caller) {
    s.PhaseOf(t).LookNext? ==> forall d :: s.PhaseOf(t).last < d < |s.draws| ==> s.draws[d] != t
  }

  ghost predicate SearchOk(n: Subnet, s: State) {
    s.lock.Some? && s.PhaseOf(s.lock.value).Locked() ==>
      var t := s.lock.value;
      && s.PhaseOf(t).first < s.lockedAt <= |s.draws|
      && LatestAtHand(s, t)
      && forall d: nat :: s.lockedAt <= d < |s.draws| ==> SearchDraw(n, s, t, d)
  }

  // ----- Every step keeps it

  /** A step of another caller that draws nothing, or a read of the holder. */
  lemma QuietKeeps(n: Subnet, s: State, u: Caller, p: Phase)
    requires CallersOk(n, s) && SearchOk(n, s)
    requires p == ReadFirst || p.SwapFirst? || p.ReadNext? || p.SwapNext?
    requires if s.PhaseOf(u).Locked() then p.Locked() && p.first == s.PhaseOf(u).first && p.start == s.PhaseOf(u).start
             else !p.Locked()
    requires !s.PhaseOf(u).Waiting? && !s.PhaseOf(u).LookFirst? && !s.PhaseOf(u).LookNext?
    ensures SearchOk(n, s.At(u, p))
  {
    hide AddressAt, Dotted, Wrapped;
    var s' := s.At(u, p);
    assert PhaseOk(n, s, u);
    if s.lock.Some? {
      var t := s.lock.value;
      forall d: nat | s.lockedAt <= d < |s.draws| ensures SearchDraw(n, s', t, d) {
        assert SearchDraw(n, s, t, d);
      }
    }
  }

  lemma LockStarts(n: Subnet, s: State, t: Caller)
    requires CallersOk(n, s) && Enabled(s, Lock(t))
    ensures SearchOk(n, Apply(n, s, Lock(t)))
  {
    hide AddressAt, Dotted, Wrapped;
    assert PhaseOk(n, s, t);
  }

  lemma DrawKept(n: Subnet, s: State, u: Caller)
    requires n.Valid() && CallersOk(n, s) && SearchOk(n, s)
    requires Enabled(s, Swap(u)) && s.PhaseOf(u).seen == s.counter
    ensures SearchOk(n, SwapStep(n, s, u))
  {
    hide AddressAt, Dotted, Wrapped;
    var s' := SwapStep(n, s, u);
    WrapInvisible(n, |s.draws|);
    assert PhaseOk(n, s, u);
    if s.lock.Some? {
      var t := s.lock.value;
      forall d: nat | s.lockedAt <= d < |s'.draws| ensures SearchDraw(n, s', t, d) {
        if d < |s.draws| {
          assert SearchDraw(n, s, t, d);
          assert s'.draws[d] == s.draws[d];
        }
      }
    }
  }

  lemma LookKept(n: Subnet, s: State, t: Caller)
    requires CallersOk(n, s) && SearchOk(n, s) && Enabled(s, Look(t))
    ensures SearchOk(n, LookStep(s, t))
  {
    hide AddressAt, Dotted, Wrapped;
    var s' := LookStep(s, t);
    assert PhaseOk(n, s, t);
    if s'.lock.Some? {
      forall d: nat | s.lockedAt <= d < |s.draws| ensures SearchDraw(n, s', t, d) {
        assert SearchDraw(n, s, t, d);
      }
    }
  }

  lemma SearchKept(n: Subnet, s: State, a: Action)
    requires n.Valid() && CallersOk(n, s) && SearchOk(n, s) && Enabled(s, a)
    ensures SearchOk(n, Apply(n, s, a))
  {
    hide AddressAt, Dotted, Wrapped, CallersOk;
    match a
    case Begin(t) => QuietKeeps(n, s, t, ReadFirst);
    case Read(t) => QuietKeeps(n, s, t, ReadStep(s, t).PhaseOf(t));
    case Swap(t) =>
      if s.PhaseOf(t).seen == s.counter {
        DrawKept(n, s, t);
      } else {
        QuietKeeps(n, s, t, SwapStep(n, s, t).PhaseOf(t));
      }
    case Lock(t) => LockStarts(n, s, t);
    case Look(t) => LookKept(n, s, t);
    case _ =>
  }

  lemma {:induction false} Searching(n: Subnet, run: seq<Action>, s: State)
    requires n.Valid() && Reaches(n, run, s)
    ensures SearchOk(n, s) && CallersOk(n, s)
    decreases |run|
  {
    hide CallersOk, GrantsOk, DrawsOk, Enabled, Apply;
    Reachable(n, run, s);
    if run != [] {
      var last := |run| - 1;
      var p :| Reaches(n, run[..last], p) && Enabled(p, run[last]) && s == Apply(n, p, run[last]);
      Searching(n, run[..last], p);
      SearchKept(n, p, run[last]);
    }
  }

  // ----- Results

  /** While the lock is held, whoever else draws then waits with that draw: nobody draws twice. */
  lemma OthersDrawOnce(n: Subnet, run: seq<Action>, s: State, t: Caller, d: nat)
    requires n.Valid() && Reaches(n, run, s) && s.lock == Some(t)
    requires s.lockedAt <= d < |s.draws| && s.draws[d] != t
    ensures s.PhaseOf(s.draws[d]) == Waiting(d, AddressAt(n, d))
  {
    hide Reaches, AddressAt, Dotted, Wrapped;
    Searching(n, run, s);
    assert SearchDraw(n, s, t, d);
  }

  /** The other callers that wait for the lock. */
  function Queue(s: State, t: Caller): set<Caller> {
    set u | u in s.phases && u != t && s.phases[u].Waiting?
  }

  /** In each cycle of draws that the holder has passed, another caller drew its first address. */
  lemma CycleMeetsOther(n: Subnet, s: State, t: Caller, lo: nat) returns (e: nat)
    requires n.Valid() && CallersOk(n, s) && SearchOk(n, s) && s.lock == Some(t)
    requires s.lockedAt <= lo && lo + n.Size() <= |s.draws|
    requires forall d :: lo <= d < lo + n.Size() ==> !AtHand(s.PhaseOf(t), d)
    ensures lo <= e < lo + n.Size() && s.draws[e] in Queue(s, t) && s.PhaseOf(s.draws[e]).first == e
  {
    hide AddressAt, Dotted, Wrapped, Distance;
    assert PhaseOk(n, s, t);
    var start := s.PhaseOf(t).start;
    DrawnInSubnet(n, s.PhaseOf(t).first);
    var k := Distance(n, lo, start);
    e := lo + k;
    DrawsCoverSubnet(n, lo, start, k);
    WrapInvisible(n, e);
    assert SearchDraw(n, s, t, e);
  }

  /** The number of draws in `j` cycles. */
  function Cycles(size: nat, j: nat): nat {
    if j == 0 then 0 else Cycles(size, j - 1) + size
  }

  lemma {:induction false} CyclesProduct(size: nat, j: nat)
    ensures Cycles(size, j) == j * size
  {
    if j > 0 { CyclesProduct(size, j - 1); }
  }

  /** After `j` cycles at least `j` callers are waiting. */
  lemma {:induction false} Crowd(n: Subnet, s: State, t: Caller, j: nat) returns (us: set<Caller>)
    requires n.Valid() && CallersOk(n, s) && SearchOk(n, s) && s.lock == Some(t)
    requires s.lockedAt + Cycles(n.Size(), j) <= |s.draws|
    requires forall d :: s.lockedAt <= d < s.lockedAt + Cycles(n.Size(), j) ==> !AtHand(s.PhaseOf(t), d)
    ensures |us| == j && us <= Queue(s, t)
    ensures forall u :: u in us ==> s.PhaseOf(u).first < s.lockedAt + Cycles(n.Size(), j)
    decreases j
  {
    hide AddressAt, Dotted, Wrapped, SearchOk, CallersOk, AtHand;
    us := {};
    if j > 0 {
      us := Crowd(n, s, t, j - 1);
      var e := CycleMeetsOther(n, s, t, s.lockedAt + Cycles(n.Size(), j - 1));
      assert s.draws[e] !in us;
      us := us + {s.draws[e]};
    }
  }

  lemma {:induction false} SubsetSize<T>(a: set<T>, b: set<T>)
    requires a <= b
    ensures |a| <= |b|
  {
    if a != {} {
      var x :| x in a;
      SubsetSize(a - {x}, b - {x});
    }
  }

  /**
   The search is bounded: every draw that the holder makes since it took the lock comes
   within as many cycles of draws as callers are waiting, and one more.
   */
  lemma SearchBounded(n: Subnet, run: seq<Action>, s: State, t: Caller, d: nat)
    requires n.Valid() && Reaches(n, run, s) && s.lock == Some(t)
    requires s.lockedAt <= d < |s.draws| && s.draws[d] == t
    ensures d < s.lockedAt + (|Queue(s, t)| + 1) * n.Size()
  {
    hide Reaches, AddressAt, Dotted, Wrapped;
    Searching(n, run, s);
    var w := |Queue(s, t)|;
    CyclesProduct(n.Size(), w + 1);
    if d >= s.lockedAt + (w + 1) * n.Size() {
      var us := Crowd(n, s, t, w + 1);
      SubsetSize(us, Queue(s, t));
    }
  }
}
