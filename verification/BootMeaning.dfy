/**
 What a boot does, said by what it sees: file times, the lineage, the profile, and how
 reading and restoring the snapshot went.
 */
module BootMeaning {
  import opened Text
  import opened BootRetry
  import opened Boot

  // ----- Which source is used

  predicate LegacyThere(w: World) {
    exists i :: 0 <= i < |w.legacyTimes| && w.legacyTimes[i].Some?
  }

  predicate LegacyNewer(w: World, t: Time) {
    exists i :: 0 <= i < |w.legacyTimes| && w.legacyTimes[i].Some? && w.legacyTimes[i].value > t
  }

  /**
   The snapshot is not used: it is missing, or legacy files exist, it has no lineage, and
   a legacy file or the zero time is newer.
   */
  predicate Outranked(w: World) {
    || w.snapshotTime.None?
    || (&& LegacyThere(w) && w.lineage == 0
        && (w.snapshotTime.value < 0 || LegacyNewer(w, w.snapshotTime.value)))
  }

  lemma ChosenExactly(w: World)
    ensures Chosen(w) <==> !Outranked(w)
    ensures LegacyExists(w) <==> LegacyThere(w)
  {
    if w.snapshotTime.Some? && !NotOlder(w, w.snapshotTime.value) {
      var i :| 0 <= i < |w.legacyTimes| && w.legacyTimes[i].Some? && w.legacyTimes[i].value > w.snapshotTime.value;
    }
  }

  // ----- How the restore went

  /** `n` is the last attempt, if there is one. */
  ghost predicate Ended(w: World, n: nat) {
    if w.load.Loaded? then LastAttempt(w, n) else n == 0
  }

  predicate Applies(w: World, n: nat) {
    w.load.Loaded? && w.restore(n).Applied?
  }

  lemma SucceedsExactly(w: World, n: nat)
    requires Ended(w, n)
    ensures Succeeds(w) <==> Applies(w, n)
  {
    hide Retried;
    if w.load.Loaded? { OnlyLast(w, n); }
  }

  // ----- What happens then

  /** The legacy files the replay knows. */
  const LEGACY_FILES: set<string> := {
    "EPconfig.txt", "lbconfig.txt", "sessionconfig.txt", "sessionulclconfig.txt",
    "FWconfig.txt", "IPFilterconfig.txt", "SecurityRateconfig.txt"}

  lemma ReplayedFiles(file: string)
    ensures file in LEGACY_FILES <==> exists k :: 0 <= k < |REPLAYED| && file == REPLAYED[k]
  {
    assert file in LEGACY_FILES <==> file in REPLAYED;
  }

  /** Endpoints come first, then load balancers, sessions, firewall, filter and rate limits. */
  lemma ReplayOrder(w: World)
    requires LEGACY_FILES <= w.present
    ensures ReplayEvents(w, 0) == [
              Replayed("EPconfig.txt"), Replayed("lbconfig.txt"), Replayed("sessionconfig.txt"),
              Replayed("sessionulclconfig.txt"), Replayed("FWconfig.txt"), Replayed("IPFilterconfig.txt"),
              Replayed("SecurityRateconfig.txt")]
  {
    hide ReplayEvents;
    AllFrom(w, 7);
    AllFrom(w, 6);
    AllFrom(w, 5);
    AllFrom(w, 4);
    AllFrom(w, 3);
    AllFrom(w, 2);
    AllFrom(w, 1);
    AllFrom(w, 0);
  }

  lemma AllFrom(w: World, i: nat)
    requires LEGACY_FILES <= w.present && i <= 7
    ensures ReplayEvents(w, i) == if i == 7 then [] else [Replayed(REPLAYED[i])] + ReplayEvents(w, i + 1)
  {
    ReplayStep(w, i);
    if i < 7 { ReplayedFiles(REPLAYED[i]); }
  }

  /**
   A legacy file is replayed exactly when it is there and the snapshot is not used, or
   could not be applied under a profile that is not strict.
   */
  lemma ReplayMeans(w: World, n: nat, end: BootState, file: string)
    requires Ended(w, n)
    ensures Replayed(file) in BootEvents(w, n, end) <==>
            && file in w.present && file in LEGACY_FILES
            && (Outranked(w) || (!Applies(w, n) && !IsStrict(w.profile)))
  {
    hide Chosen, Succeeds, BootEvents, IsStrict, Ended, Outranked;
    ReplayExactly(w, n, end, file);
    ReplayedFiles(file);
    ChosenExactly(w);
    SucceedsExactly(w, n);
  }

  /** A fallback is marked exactly when a snapshot that was used could not be applied, outside the strict profile, and legacy files exist. */
  lemma FallbackMeans(w: World, n: nat, end: BootState)
    requires Ended(w, n)
    ensures FallbackRecorded in BootEvents(w, n, end) <==>
            !Outranked(w) && !Applies(w, n) && !IsStrict(w.profile) && w.legacyOnFallback
  {
    hide Chosen, Succeeds, IsStrict, Ended, Outranked, AttemptEvents, ReplayEvents, LegacyExists;
    InBoot(w, n, end, FallbackRecorded);
    OnlyAttempts(n, FallbackRecorded);
    OnlyReplays(w, 0, FallbackRecorded);
    ChosenExactly(w);
    SucceedsExactly(w, n);
  }

  /** Persisting the legacy configuration is asked for exactly when the snapshot is not used and legacy files exist. */
  lemma WriteThroughMeans(w: World, n: nat, end: BootState)
    ensures WroteThrough in BootEvents(w, n, end) <==> Outranked(w) && LegacyThere(w)
  {
    hide Chosen, LegacyExists, BootEvents, Outranked, LegacyThere;
    WriteThroughExactly(w, n, end);
    ChosenExactly(w);
  }

  /** Quarantine is attempted exactly when a snapshot that was used and did not vanish could not be applied. */
  lemma QuarantineMeans(w: World, n: nat, end: BootState, path: Option<string>)
    requires Ended(w, n)
    ensures Quarantined(path) in BootEvents(w, n, end) <==>
            !Outranked(w) && !w.load.Vanished? && !Applies(w, n) && path == w.quarantinePath
  {
    hide Chosen, Succeeds, BootEvents, Ended, Outranked;
    QuarantineExactly(w, n, end, path);
    ChosenExactly(w);
    SucceedsExactly(w, n);
  }

  /** The restore is attempted exactly when the snapshot is used and could be read, up to the last attempt. */
  lemma AttemptsMeans(w: World, n: nat, end: BootState, k: nat)
    requires Ended(w, n)
    ensures Attempted(k) in BootEvents(w, n, end) <==> !Outranked(w) && w.load.Loaded? && 1 <= k <= n
  {
    hide Chosen, Succeeds, Outranked, AttemptEvents, ReplayEvents, LegacyExists, Retried;
    InBoot(w, n, end, Attempted(k));
    OnlyAttempts(n, Attempted(k));
    OnlyReplays(w, 0, Attempted(k));
    ChosenExactly(w);
    if !w.load.Loaded? { NoAttempts(w); }
  }

  /** The attempts follow each other with one sleep in between. */
  lemma {:induction false} AttemptShape(n: nat, k: nat)
    requires 1 <= k <= n
    ensures var events := AttemptEvents(n);
            |events| == 2 * n - 1 && events[2 * k - 2] == Attempted(k) && (k < n ==> events[2 * k - 1] == Slept)
  {
    if n > 1 { AttemptShape(n - 1, if k < n then k else n - 1); }
  }

  /** A conflict is counted exactly when the snapshot and a legacy file exist; what was chosen is recorded first. */
  lemma ChoiceMeans(w: World, n: nat, end: BootState)
    ensures ConflictCounted in BootEvents(w, n, end) <==> w.snapshotTime.Some? && LegacyThere(w)
    ensures var first := BootState(w.profile, !Outranked(w), false, 0, None, false, false, []);
            var at := if w.snapshotTime.Some? && LegacyThere(w) then 2 else 1;
            BootEvents(w, n, end)[0] == Pruned && BootEvents(w, n, end)[at] == Recorded(first)
  {
    hide Chosen, Succeeds, LegacyExists, LegacyThere, Outranked, AttemptEvents, ReplayEvents, LastAttempt;
    InBoot(w, n, end, ConflictCounted);
    OnlyAttempts(n, ConflictCounted);
    OnlyReplays(w, 0, ConflictCounted);
    ChosenExactly(w);
    ChoicePrefix(w, n, end);
  }

  lemma ChoicePrefix(w: World, n: nat, end: BootState)
    ensures ChoiceEvents(w) <= BootEvents(w, n, end)
  {
    hide ChoiceEvents, RestoreEvents, LegacyEvents, Chosen;
  }

  /** Why a restore did not apply. */
  function FailureReasons(w: World, n: nat): seq<string> {
    match w.load
    case Unreadable(message) => ["read persisted snapshot: " + message]
    case Vanished => []
    case Loaded =>
      match w.restore(n)
      case EngineError(message) => ["restore engine: " + message]
      case Failed(errors) => errors
      case Applied(_) => []
  }

  /**
   The state left for the status surface: degraded, with the reasons and the quarantine
   path, exactly when a used snapshot that did not vanish was not applied.
   */
  lemma StatusMeans(w: World, n: nat, end: BootState)
    requires Ended(w, n) && (!Outranked(w) ==> EndState(w, n, end))
    ensures var state := if Outranked(w) then Baseline(w) else end.(legacyFallback := FallsBack(w));
            var failed := !Outranked(w) && !w.load.Vanished? && !Applies(w, n);
            && state.profile == w.profile
            && (state.snapshotFound <==> !Outranked(w))
            && (state.succeeded <==> !Outranked(w) && Applies(w, n))
            && (state.degraded <==> failed)
            && state.reasons == (if failed then FailureReasons(w, n) else [])
            && state.quarantinePath == (if failed then w.quarantinePath else None)
            && state.generation == (if !Outranked(w) && Applies(w, n) then w.restore(n).generation else 0)
            && (state.legacyFallback <==>
                !Outranked(w) && !Applies(w, n) && !IsStrict(w.profile) && w.legacyOnFallback)
  {
    hide Chosen, Succeeds, IsStrict, Ended, Outranked, LastAttempt;
    ChosenExactly(w);
    SucceedsExactly(w, n);
    StatusHonest(w, n, end);
  }

  // ----- When a restore is tried again

  /** The last attempt is no failure that calls for another try. */
  lemma MustRetry(w: World, n: nat)
    requires LastAttempt(w, n) && w.restore(n).Failed?
    ensures StartupErrors(w.restore(n).errors) ==>
              n >= 15 && (w.elapsed(n) >= 150_000_000_000 || !BgpStartupOnly(w.restore(n).errors))
  {
    hide StartupErrors, BgpStartupOnly;
  }

  // ----- Boots

  /** A compat boot whose snapshot cannot be read replays the legacy files that are there, and says so. */
  lemma CompatFallsBack() returns (w: World, end: BootState)
    ensures WorldOk(w) && w.profile == "compat" && w.snapshotTime.Some? && w.load.Unreadable?
    ensures EndState(w, 0, end) && end.degraded
    ensures Replayed("lbconfig.txt") in BootEvents(w, 0, end) && FallbackRecorded in BootEvents(w, 0, end)
  {
    hide FairClock, BootEvents, Succeeds, Retried;
    w := Sample("compat", 5, [Some(3)], Unreadable("io"), []).(present := {"lbconfig.txt"});
    SampleOk("compat", 5, [Some(3)], Unreadable("io"), []);
    end := FailureState(w, Reasons(w, 0));
    assert w.profile[0] == 'c';
    NoAttempts(w);
    ReplayMeans(w, 0, end, "lbconfig.txt");
    FallbackMeans(w, 0, end);
  }
}
