/**
 The boot configuration replay (LbSessionGet and applySnapshotBoot of
 api/loxinlp/nlp.go): choosing between the snapshot and the legacy files, restoring
 with retries, quarantine, fallback, migration and the write gate. What the file
 system, the restore engine and the clock answer is given by a `World`; what the boot
 does to the outside is recorded as a trace.
 */
module Boot {
  import opened Text
  import opened BootRetry

  // ----- What the boot sees

  datatype Load = Unreadable(message: string) | Vanished | Loaded

  datatype Restore =
    | EngineError(message: string)
    | Applied(generation: nat)
    | Failed(errors: seq<string>)

  /** Modification times count from Go's zero time. */
  type Time = int

  datatype World = World(
    profile: string,
    snapshotTime: Option<Time>,
    legacyTimes: seq<Option<Time>>,
    lineage: nat,
    load: Load,
    restore: nat -> Restore,
    elapsed: nat -> int,
    quarantinePath: Option<string>,
    legacyOnFallback: bool,
    present: set<string>)

  /** The files replayed in order, as far as they are `present`. */
  const REPLAYED: seq<string> := [
    "EPconfig.txt", "lbconfig.txt", "sessionconfig.txt", "sessionulclconfig.txt",
    "FWconfig.txt", "IPFilterconfig.txt", "SecurityRateconfig.txt"]

  ghost predicate WorldOk(w: World) {
    FairClock(w.elapsed)
  }

  // ----- What the boot does

  datatype BootState = BootState(
    profile: string,
    snapshotFound: bool,
    succeeded: bool,
    generation: nat,
    quarantinePath: Option<string>,
    legacyFallback: bool,
    degraded: bool,
    reasons: seq<string>)

  datatype Event =
    | Pruned
    | ConflictCounted
    | Attempted(n: nat)
    | Slept
    | Quarantined(path: Option<string>)
    | Recorded(state: BootState)
    | FallbackRecorded
    | Replayed(file: string)
    | WroteThrough
    | GateOpened

  // ----- The choice

  function FoldChar(c: char): char {
    if 'A' <= c <= 'Z' then (c as int + 32) as char else if c == '\U{017F}' then 's' else c
  }

  /** Case-insensitive comparison with the name of the strict profile. */
  predicate IsStrict(profile: string) {
    |profile| == 6 && forall i :: 0 <= i < 6 ==> FoldChar(profile[i]) == "strict"[i]
  }

  /** On ASCII text this is comparison in lower case. */
  lemma StrictNames(profile: string)
    requires forall c :: c in profile ==> c as int < 128
    ensures IsStrict(profile) <==> Lower(profile) == "strict"
  {
    assert forall i :: 0 <= i < |profile| ==> profile[i] in profile;
    if Lower(profile) == "strict" {
      assert |profile| == 6;
      forall i | 0 <= i < 6 ensures FoldChar(profile[i]) == "strict"[i] {
        assert Lower(profile)[i] == LowerChar(profile[i]);
      }
    }
  }

  predicate LegacyExists(w: World) {
    exists i :: 0 <= i < |w.legacyTimes| && w.legacyTimes[i].Some?
  }

  /** The newest legacy time; the search starts at the zero time. */
  method NewestLegacy(times: seq<Option<Time>>) returns (newest: Time, found: bool)
    ensures found <==> exists i :: 0 <= i < |times| && times[i].Some?
    ensures newest >= 0 && forall i :: 0 <= i < |times| && times[i].Some? ==> times[i].value <= newest
    ensures newest == 0 || Some(newest) in times
  {
    newest, found := 0, false;
    for i := 0 to |times|
      invariant found <==> exists k :: 0 <= k < i && times[k].Some?
      invariant newest >= 0 && forall k :: 0 <= k < i && times[k].Some? ==> times[k].value <= newest
      invariant newest == 0 || Some(newest) in times
    {
      if times[i].Some? {
        found := true;
        if times[i].value > newest {
          newest := times[i].value;
        }
      }
    }
  }

  /** No legacy file is newer than `t`. */
  predicate NotOlder(w: World, t: Time) {
    forall i :: 0 <= i < |w.legacyTimes| && w.legacyTimes[i].Some? ==> w.legacyTimes[i].value <= t
  }

  /** The snapshot is chosen: alone, by its lineage, or because nothing legacy is newer. */
  predicate Chosen(w: World) {
    w.snapshotTime.Some? &&
    (!LegacyExists(w) || w.lineage > 0 || (w.snapshotTime.value >= 0 && NotOlder(w, w.snapshotTime.value)))
  }

  /** The rejected source is not newer than the chosen one. */
  predicate NewestWins(w: World)
    requires w.snapshotTime.Some?
  {
    if Chosen(w) then NotOlder(w, w.snapshotTime.value)
    else exists i :: 0 <= i < |w.legacyTimes| && w.legacyTimes[i].Some? && w.snapshotTime.value <= w.legacyTimes[i].value
  }

  /**
   Without a lineage generation the chosen source is never older than the rejected
   one, except exactly when every legacy file is older than a snapshot that is itself
   older than the zero time.
   */
  lemma NewestWinsExactly(w: World)
    requires w.snapshotTime.Some? && LegacyExists(w) && w.lineage == 0
    ensures NewestWins(w) <==>
            !(w.snapshotTime.value < 0 &&
              forall i :: 0 <= i < |w.legacyTimes| && w.legacyTimes[i].Some? ==> w.legacyTimes[i].value < w.snapshotTime.value)
  {
  }

  // ----- The restore loop

  predicate Retried(w: World, n: nat) {
    w.restore(n).Failed? && RetryAllowed(n, w.elapsed(n), w.restore(n).errors)
  }

  /** Attempt `n` is the last one: every attempt before it was retried, and it is not. */
  ghost predicate LastAttempt(w: World, n: nat) {
    n >= 1 && !Retried(w, n) && forall k: nat :: 1 <= k < n ==> Retried(w, k)
  }

  /** The restore succeeds in the end. */
  ghost predicate Succeeds(w: World) {
    w.load.Loaded? && exists n: nat :: LastAttempt(w, n) && w.restore(n).Applied?
  }

  /** `n` attempts with a sleep after each but the last. */
  function AttemptEvents(n: nat): seq<Event> {
    if n == 0 then [] else if n == 1 then [Attempted(1)] else AttemptEvents(n - 1) + [Slept, Attempted(n)]
  }

  function FailureState(w: World, reasons: seq<string>): BootState {
    BootState(w.profile, true, false, 0, w.quarantinePath, false, true, reasons)
  }

  /** Why the restore failed, after `n` attempts. */
  function Reasons(w: World, n: nat): seq<string> {
    if w.load.Unreadable? then ["read persisted snapshot: " + w.load.message]
    else
      match w.restore(n)
      case EngineError(message) => ["restore engine: " + message]
      case Failed(errors) => errors
      case Applied(_) => []
  }

  function SuccessState(w: World, generation: nat): BootState {
    BootState(w.profile, true, true, generation, None, false, false, [])
  }

  // ----- The whole boot

  function Baseline(w: World): BootState {
    BootState(w.profile, Chosen(w), false, 0, None, false, false, [])
  }

  /** The legacy files are replayed. */
  ghost predicate Replays(w: World) {
    !Chosen(w) || (!Succeeds(w) && !IsStrict(w.profile))
  }

  /** The chosen snapshot could not be restored, and not because it vanished. */
  ghost predicate RestoreFails(w: World) {
    Chosen(w) && !Succeeds(w) && !w.load.Vanished?
  }

  ghost predicate FallsBack(w: World) {
    Chosen(w) && Replays(w) && w.legacyOnFallback
  }

  function ReplayEvents(w: World, i: nat): seq<Event>
    decreases |REPLAYED| - i
  {
    if i >= |REPLAYED| then []
    else (if REPLAYED[i] in w.present then [Replayed(REPLAYED[i])] else []) + ReplayEvents(w, i + 1)
  }

  function ChoiceEvents(w: World): seq<Event> {
    [Pruned] + (if w.snapshotTime.Some? && LegacyExists(w) then [ConflictCounted] else []) + [Recorded(Baseline(w))]
  }

  /** What restoring does, after `n` attempts, with `end` the state recorded last. */
  ghost function RestoreEvents(w: World, n: nat, end: BootState): seq<Event> {
    if w.load.Vanished? then []
    else if Succeeds(w) then AttemptEvents(n) + [Recorded(end)]
    else AttemptEvents(n) + [Quarantined(w.quarantinePath), Recorded(end)]
  }

  ghost function LegacyEvents(w: World): seq<Event>
  {
    if !Replays(w) then []
    else
      (if FallsBack(w) then [FallbackRecorded] else [])
      + ReplayEvents(w, 0)
      + (if !Chosen(w) && LegacyExists(w) then [WroteThrough] else [])
  }

  /** Everything a boot does. */
  ghost function BootEvents(w: World, n: nat, end: BootState): seq<Event>
  {
    ChoiceEvents(w) + (if Chosen(w) then RestoreEvents(w, n, end) else []) + LegacyEvents(w) + [GateOpened]
  }

  /** `end` is what the restore of the chosen snapshot records. */
  ghost predicate EndState(w: World, n: nat, end: BootState) {
    && (w.load.Loaded? ==> LastAttempt(w, n) && n <= 76)
    && (!w.load.Loaded? ==> n == 0)
    && (Succeeds(w) ==> end == SuccessState(w, w.restore(n).generation))
    && (RestoreFails(w) ==> end == FailureState(w, Reasons(w, n)))
    && (w.load.Vanished? ==> end == Baseline(w))
  }

  class BootSession {
    var trace: seq<Event>
    var recorded: Option<BootState>
    var settled: bool

    constructor ()
      ensures trace == [] && recorded.None? && !settled
    {
      trace, recorded, settled := [], None, false;
    }

    method Log(e: Event)
      modifies this`trace
      ensures trace == old(trace) + [e]
    {
      trace := trace + [e];
    }

    method Record(state: BootState)
      modifies this`trace, this`recorded
      ensures recorded == Some(state) && trace == old(trace) + [Recorded(state)]
    {
      recorded := Some(state);
      trace := trace + [Recorded(state)];
    }

    /** Quarantines the snapshot and records a degraded boot. */
    method RecordFailure(w: World, reasons: seq<string>)
      modifies this`trace, this`recorded
      ensures recorded == Some(FailureState(w, reasons))
      ensures trace == old(trace) + [Quarantined(w.quarantinePath), Recorded(FailureState(w, reasons))]
    {
      Log(Quarantined(w.quarantinePath));
      Record(FailureState(w, reasons));
    }

    /**
     Restores the snapshot with retries. Each retry follows a failure the retry rule
     accepts, there are at most 76 attempts, success is recorded as such, and every
     failure but a vanished file is quarantined and recorded as degraded.
     */
    method ApplySnapshot(w: World) returns (ok: bool, ghost n: nat)
      requires WorldOk(w) && recorded.Some?
      modifies this`trace, this`recorded
      ensures ok <==> Succeeds(w)
      ensures recorded.Some? && trace == old(trace) + RestoreEvents(w, n, recorded.value)
      ensures w.load.Loaded? ==> LastAttempt(w, n) && n <= 76
      ensures !w.load.Loaded? ==> n == 0
      ensures ok ==> recorded == Some(SuccessState(w, w.restore(n).generation))
      ensures !ok && !w.load.Vanished? ==> recorded.value == FailureState(w, Reasons(w, n))
      ensures w.load.Vanished? ==> recorded == old(recorded)
    {
      hide RetryAllowed, FairClock, Succeeds, LastAttempt, AttemptEvents;
      n := 0;
      NoAttempts(w);
      if w.load.Unreadable? {
        RecordFailure(w, ["read persisted snapshot: " + w.load.message]);
        return false, 0;
      }
      if w.load.Vanished? {
        return false, 0;
      }
      var attempt := 1;
      Log(Attempted(1));
      while true
        invariant 1 <= attempt <= 76 && recorded == old(recorded)
        invariant forall k: nat :: 1 <= k < attempt ==> Retried(w, k)
        invariant trace == old(trace) + AttemptEvents(attempt)
        decreases 76 - attempt
      {
        n := attempt;
        var result := w.restore(attempt);
        OnlyLast(w, attempt);
        if result.EngineError? {
          RecordFailure(w, ["restore engine: " + result.message]);
          return false, n;
        }
        if result.Applied? {
          Record(SuccessState(w, result.generation));
          return true, n;
        }
        if RetryAllowed(attempt, w.elapsed(attempt), result.errors) {
          RetriesBounded(w.elapsed, attempt, result.errors);
          AttemptStep(attempt);
          Log(Slept);
          attempt := attempt + 1;
          Log(Attempted(attempt));
          continue;
        }
        RecordFailure(w, result.errors);
        return false, n;
      }
    }

    /** Chooses the source and records the baseline. */
    method Arbitrate(w: World) returns (useSnapshot: bool, legacy: bool)
      requires WorldOk(w)
      modifies this`trace, this`recorded
      ensures useSnapshot == Chosen(w) && legacy == LegacyExists(w)
      ensures trace == old(trace) + ChoiceEvents(w) && recorded == Some(Baseline(w))
    {
      hide FairClock;
      Log(Pruned);
      useSnapshot := false;
      var newest;
      newest, legacy := NewestLegacy(w.legacyTimes);
      if w.snapshotTime.Some? && legacy {
        Log(ConflictCounted);
        if w.lineage > 0 {
          useSnapshot := true;
        } else {
          useSnapshot := !(w.snapshotTime.value < newest);
        }
      } else if w.snapshotTime.Some? {
        useSnapshot := true;
      }
      Record(BootState(w.profile, useSnapshot, false, 0, None, false, false, []));
    }

    /** Replays the legacy files that are there, in order. */
    method ReplayLegacy(w: World)
      requires WorldOk(w)
      modifies this`trace
      ensures trace == old(trace) + ReplayEvents(w, 0)
    {
      hide FairClock, ReplayEvents;
      var i := 0;
      while i < |REPLAYED|
        invariant i <= |REPLAYED| && old(trace) + ReplayEvents(w, 0) == trace + ReplayEvents(w, i)
      {
        ReplayStep(w, i);
        if REPLAYED[i] in w.present {
          ConcatAssoc(trace, [Replayed(REPLAYED[i])], ReplayEvents(w, i + 1));
          Log(Replayed(REPLAYED[i]));
        }
        i := i + 1;
      }
      ReplayStep(w, i);
    }

    /** Marks the recorded state as a legacy fallback. */
    method RecordFallback()
      requires recorded.Some?
      modifies this`trace, this`recorded
      ensures recorded == Some(old(recorded).value.(legacyFallback := true))
      ensures trace == old(trace) + [FallbackRecorded]
    {
      recorded := Some(recorded.value.(legacyFallback := true));
      Log(FallbackRecorded);
    }

    /** What follows when the snapshot was not chosen or not applied. */
    method LegacyPhase(w: World, useSnapshot: bool, applied: bool, legacy: bool)
      requires WorldOk(w) && recorded.Some? && useSnapshot == Chosen(w) && legacy == LegacyExists(w)
      requires applied == (useSnapshot && Succeeds(w))
      modifies this`trace, this`recorded
      ensures trace == old(trace) + LegacyEvents(w)
      ensures recorded == Some(if FallsBack(w) then old(recorded).value.(legacyFallback := true) else old(recorded).value)
    {
      hide FairClock, Chosen, Succeeds, LegacyExists, ReplayEvents;
      ghost var before := trace;
      if applied || (useSnapshot && IsStrict(w.profile)) {
        return;
      }
      ghost var a := if FallsBack(w) then [FallbackRecorded] else [];
      if useSnapshot && w.legacyOnFallback {
        RecordFallback();
      }
      assert trace == before + a;
      ReplayLegacy(w);
      ConcatAssoc(before, a, ReplayEvents(w, 0));
      ghost var b := if !useSnapshot && legacy then [WroteThrough] else [];
      if !useSnapshot && legacy {
        Log(WroteThrough);
      }
      ConcatAssoc(before, a + ReplayEvents(w, 0), b);
    }

    /**
     The boot. Its events are those of the specification, the write gate is open at the
     end whatever happens, and the state left for the status surface says how it went.
     */
    method LbSessionGet(done: bool, w: World) returns (ghost n: nat, ghost end: BootState)
      requires WorldOk(w)
      modifies this
      ensures settled
      ensures !done ==> trace == old(trace) + [GateOpened] && recorded == old(recorded)
      ensures done ==> trace == old(trace) + BootEvents(w, n, end)
      ensures done && Chosen(w) ==> EndState(w, n, end)
      ensures done ==> recorded == Some(if Chosen(w) then end.(legacyFallback := FallsBack(w)) else Baseline(w))
    {
      hide FairClock, Chosen, Succeeds, LegacyExists, LastAttempt, LegacyEvents, ChoiceEvents, RestoreEvents;
      n, end := 0, Baseline(w);
      if done {
        ghost var before := trace;
        var useSnapshot, legacy := Arbitrate(w);
        var applied := false;
        ghost var b := [];
        if useSnapshot {
          applied, n := ApplySnapshot(w);
          end := recorded.value;
          b := RestoreEvents(w, n, end);
        }
        assert trace == before + ChoiceEvents(w) + b;
        LegacyPhase(w, useSnapshot, applied, legacy);
        ConcatBoot(before, ChoiceEvents(w), b, LegacyEvents(w), GateOpened);
      }
      settled := true;
      Log(GateOpened);
    }
  }

  lemma ConcatBoot<T>(before: seq<T>, a: seq<T>, b: seq<T>, c: seq<T>, e: T)
    ensures before + a + b + c + [e] == before + (a + b + c + [e])
  {
  }

  lemma ReplayStep(w: World, i: nat)
    ensures i >= |REPLAYED| ==> ReplayEvents(w, i) == []
    ensures i < |REPLAYED| ==>
              ReplayEvents(w, i) == (if REPLAYED[i] in w.present then [Replayed(REPLAYED[i])] else []) + ReplayEvents(w, i + 1)
  {
  }

  lemma NoAttempts(w: World)
    ensures AttemptEvents(0) == [] && AttemptEvents(1) == [Attempted(1)]
    ensures !w.load.Loaded? ==> !Succeeds(w)
  {
  }

  lemma AttemptStep(n: nat)
    requires n >= 1
    ensures AttemptEvents(n + 1) == AttemptEvents(n) + [Slept] + [Attempted(n + 1)]
  {
  }

  /** Whether the last attempt applied decides success. */
  lemma OnlyLast(w: World, n: nat)
    requires w.load.Loaded? && n >= 1 && forall k: nat :: 1 <= k < n ==> Retried(w, k)
    ensures !Retried(w, n) ==> LastAttempt(w, n) && (Succeeds(w) <==> w.restore(n).Applied?)
  {
    hide RetryAllowed;
    if !Retried(w, n) {
      forall m: nat | LastAttempt(w, m) ensures m == n {
        assert m < n ==> Retried(w, m);
      }
    }
  }

  // ----- What holds on every boot

  lemma {:induction false} OnlyAttempts(n: nat, e: Event)
    ensures e in AttemptEvents(n) ==> e.Attempted? || e.Slept?
    ensures forall k: nat :: Attempted(k) in AttemptEvents(n) <==> 1 <= k <= n
  {
    if n > 1 {
      OnlyAttempts(n - 1, e);
    }
  }

  lemma {:induction false} OnlyReplays(w: World, i: nat, e: Event)
    ensures e in ReplayEvents(w, i) <==>
            exists k :: i <= k < |REPLAYED| && REPLAYED[k] in w.present && e == Replayed(REPLAYED[k])
    decreases |REPLAYED| - i
  {
    if i < |REPLAYED| {
      OnlyReplays(w, i + 1, e);
    }
  }

  /** Membership in the events of a boot, part by part. */
  lemma InBoot(w: World, n: nat, end: BootState, e: Event)
    ensures e in BootEvents(w, n, end) <==>
            e in ChoiceEvents(w) || (Chosen(w) && e in RestoreEvents(w, n, end)) || e in LegacyEvents(w) || e == GateOpened
  {
    hide ChoiceEvents, RestoreEvents, LegacyEvents, Chosen;
  }

  /** Restoring and recording, marking a fallback, replaying, writing through, opening the gate. */
  function Stage(e: Event): nat {
    match e
    case FallbackRecorded => 1
    case Replayed(_) => 2
    case WroteThrough => 3
    case GateOpened => 4
    case _ => 0
  }

  /** Stages come in order, and only the first and the replay have several events. */
  ghost predicate InOrder(es: seq<Event>) {
    forall i, j :: 0 <= i < j < |es| ==> MayPrecede(es[i], es[j])
  }

  predicate MayPrecede(a: Event, b: Event) {
    Stage(a) < Stage(b) || (Stage(a) == Stage(b) && Stage(a) in {0, 2})
  }

  ghost predicate AllAt(es: seq<Event>, stage: nat) {
    forall e :: e in es ==> Stage(e) == stage
  }

  /** Events of one stage after events of earlier ones. */
  lemma OneMoreStage(es: seq<Event>, more: seq<Event>, stage: nat)
    requires InOrder(es) && forall e :: e in es ==> Stage(e) < stage
    requires AllAt(more, stage) && (stage == 2 || |more| <= 1)
    ensures InOrder(es + more) && forall e :: e in es + more ==> Stage(e) <= stage
  {
    hide Stage;
    var all := es + more;
    forall i, j | 0 <= i < j < |all|
      ensures MayPrecede(all[i], all[j])
    {
      if j >= |es| {
        assert all[j] == more[j - |es|] && all[j] in more;
        if i < |es| { assert all[i] == es[i] && all[i] in es; } else { assert all[i] == more[i - |es|] && all[i] in more; }
      }
    }
  }

  lemma RestoreStage(w: World, n: nat, end: BootState)
    ensures AllAt(ChoiceEvents(w) + (if Chosen(w) then RestoreEvents(w, n, end) else []), 0)
  {
    hide Chosen, Succeeds, LegacyExists, AttemptEvents;
    forall e: Event ensures e in AttemptEvents(n) ==> Stage(e) == 0 { OnlyAttempts(n, e); }
  }

  lemma ReplayStage(w: World)
    ensures AllAt(ReplayEvents(w, 0), 2)
  {
    hide ReplayEvents;
    forall e | e in ReplayEvents(w, 0) ensures Stage(e) == 2 { OnlyReplays(w, 0, e); }
  }

  /**
   A boot goes through its stages in order: everything is restored and recorded before
   anything is replayed, the write-through follows the replay, and the write gate opens
   once, after all of it.
   */
  lemma BootInOrder(w: World, n: nat, end: BootState)
    ensures InOrder(BootEvents(w, n, end))
    ensures forall i :: 0 <= i < |BootEvents(w, n, end)| ==>
              (BootEvents(w, n, end)[i] == GateOpened <==> i == |BootEvents(w, n, end)| - 1)
  {
    hide Chosen, Replays, FallsBack, LegacyExists, ChoiceEvents, RestoreEvents, ReplayEvents, InOrder, Stage;
    var a := ChoiceEvents(w) + (if Chosen(w) then RestoreEvents(w, n, end) else []);
    var b := if Replays(w) && FallsBack(w) then [FallbackRecorded] else [];
    var c := if Replays(w) then ReplayEvents(w, 0) else [];
    var d := if Replays(w) && !Chosen(w) && LegacyExists(w) then [WroteThrough] else [];
    RestoreStage(w, n, end);
    ReplayStage(w);
    FirstStage(a);
    Stages();
    OneMoreStage(a, b, 1);
    OneMoreStage(a + b, c, 2);
    OneMoreStage(a + b + c, d, 3);
    OneMoreStage(a + b + c + d, [GateOpened], 4);
    var before := a + b + c + d;
    ConcatFour(a, b, c, d);
    assert LegacyEvents(w) == b + c + d;
    assert BootEvents(w, n, end) == before + [GateOpened];
    OnlyAtEnd(before, GateOpened);
  }

  lemma ConcatFour<T>(a: seq<T>, b: seq<T>, c: seq<T>, d: seq<T>)
    ensures a + (b + c + d) == a + b + c + d
  {
  }

  lemma OnlyAtEnd<T>(before: seq<T>, e: T)
    requires e !in before
    ensures forall i :: 0 <= i <= |before| ==> ((before + [e])[i] == e <==> i == |before|)
  {
    assert forall i :: 0 <= i < |before| ==> before[i] in before;
  }

  lemma FirstStage(es: seq<Event>)
    requires AllAt(es, 0)
    ensures InOrder(es) && forall e :: e in es ==> Stage(e) < 1
  {
    hide Stage;
    assert forall i :: 0 <= i < |es| ==> es[i] in es;
  }

  lemma Stages()
    ensures Stage(FallbackRecorded) == 1 && Stage(WroteThrough) == 3 && Stage(GateOpened) == 4
  {
  }

  /** A legacy file is replayed exactly when it is there and the replay is due. */
  lemma ReplayExactly(w: World, n: nat, end: BootState, file: string)
    ensures Replayed(file) in BootEvents(w, n, end) <==>
            Replays(w) && exists k :: 0 <= k < |REPLAYED| && REPLAYED[k] in w.present && file == REPLAYED[k]
  {
    hide Chosen, Succeeds, AttemptEvents, ReplayEvents;
    InBoot(w, n, end, Replayed(file));
    OnlyAttempts(n, Replayed(file));
    OnlyReplays(w, 0, Replayed(file));
  }

  /** The legacy configuration is written through exactly when the boot decided for it and it exists. */
  lemma WriteThroughExactly(w: World, n: nat, end: BootState)
    ensures WroteThrough in BootEvents(w, n, end) <==> !Chosen(w) && LegacyExists(w)
  {
    hide Chosen, Succeeds, LegacyExists, AttemptEvents, ReplayEvents;
    InBoot(w, n, end, WroteThrough);
    OnlyAttempts(n, WroteThrough);
    OnlyReplays(w, 0, WroteThrough);
  }

  /** Quarantine is attempted exactly when a chosen snapshot was there and could not be restored. */
  lemma QuarantineExactly(w: World, n: nat, end: BootState, path: Option<string>)
    ensures Quarantined(path) in BootEvents(w, n, end) <==> RestoreFails(w) && path == w.quarantinePath
  {
    hide Chosen, Succeeds, LegacyExists, AttemptEvents, ReplayEvents;
    InBoot(w, n, end, Quarantined(path));
    OnlyAttempts(n, Quarantined(path));
    OnlyReplays(w, 0, Quarantined(path));
  }

  /** The state left behind is honest: degraded, succeeded and fallback mean what they say. */
  lemma StatusHonest(w: World, n: nat, end: BootState)
    requires Chosen(w) ==> EndState(w, n, end)
    ensures var state := if Chosen(w) then end.(legacyFallback := FallsBack(w)) else Baseline(w);
            && (state.degraded <==> RestoreFails(w))
            && (state.succeeded <==> Chosen(w) && Succeeds(w))
            && (state.legacyFallback <==> FallsBack(w))
            && (state.snapshotFound <==> Chosen(w))
            && state.profile == w.profile
            && state.reasons == (if RestoreFails(w) then Reasons(w, n) else [])
            && state.quarantinePath == (if RestoreFails(w) then w.quarantinePath else None)
            && state.generation == (if Chosen(w) && Succeeds(w) then w.restore(n).generation else 0)
  {
    hide Chosen, LegacyExists, LastAttempt;
  }

  /** The restore is attempted at most 76 times; late retries are for BGP only. */
  lemma AttemptsBounded(w: World, n: nat, k: nat)
    requires WorldOk(w) && LastAttempt(w, n) && 1 <= k < n
    ensures n <= 76
    ensures w.restore(k).Failed? && StartupErrors(w.restore(k).errors)
    ensures k >= 15 ==> BgpStartupOnly(w.restore(k).errors) && w.elapsed(k) < 150_000_000_000
  {
    assert Retried(w, n - 1) && Retried(w, k);
    RetriesBounded(w.elapsed, n - 1, w.restore(n - 1).errors);
  }

  // ----- Worlds in which the documentation does not hold, or a bound is reached

  /** A world on an exact clock in which the replay finds no legacy file any more. */
  function Sample(profile: string, snapshot: Time, legacy: seq<Option<Time>>, load: Load, errors: seq<string>): World {
    World(profile, Some(snapshot), legacy, 0, load, n => Failed(errors), ExactClock, None, true,
          {})
  }

  lemma SampleOk(profile: string, snapshot: Time, legacy: seq<Option<Time>>, load: Load, errors: seq<string>)
    ensures WorldOk(Sample(profile, snapshot, legacy, load, errors))
  {
    forall n: nat | n >= 1 ensures SleepsAfter(ExactClock, n) {}
  }

  /** Files older than the zero time can be misjudged: the older legacy file wins here. */
  lemma AncientFilesMisjudged() returns (w: World)
    ensures WorldOk(w) && w.snapshotTime.Some? && LegacyExists(w) && w.lineage == 0 && !NewestWins(w)
  {
    hide FairClock;
    w := Sample("compat", -5, [Some(-10)], Vanished, []);
    SampleOk("compat", -5, [Some(-10)], Vanished, []);
    assert w.legacyTimes[0].Some?;
  }

  /**
   A chosen snapshot that vanishes before it is read: under the strict profile nothing
   is restored and nothing replayed, and the recorded state is not degraded.
   */
  lemma VanishedLooksReady() returns (w: World, end: BootState)
    ensures WorldOk(w) && IsStrict(w.profile) && Chosen(w) && w.load.Vanished? && EndState(w, 0, end)
    ensures !Succeeds(w) && LegacyEvents(w) == [] && !end.degraded && end.reasons == []
  {
    hide FairClock;
    w := Sample("strict", 5, [], Vanished, []);
    end := Baseline(w);
    SampleOk("strict", 5, [], Vanished, []);
  }

  /** The bound on the attempts is reached: BGP that never comes up is tried 76 times. */
  lemma BoundReached() returns (w: World)
    ensures WorldOk(w) && Chosen(w) && LastAttempt(w, 76)
  {
    hide StartupErrors, BgpStartupOnly, FairClock;
    w := Sample("compat", 5, [], Loaded, [BGP_DOWN]);
    SampleOk("compat", 5, [], Loaded, [BGP_DOWN]);
    BgpDownRetried();
    forall k: nat | 1 <= k < 76 ensures Retried(w, k) {
      assert w.elapsed(k) < BGP_START_WAIT;
    }
  }
}
