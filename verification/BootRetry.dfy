/**
 When a failed boot restore is retried (api/loxinlp/boot_retry.go and the rule for
 startup errors in pkg/snapshot/registry.go).
 */
module BootRetry {
  import opened Text

  const BOOT_RETRIES: nat := 15
  /** Durations are in nanoseconds. */
  const SECOND: int := 1_000_000_000
  const BGP_START_WAIT: int := 150 * SECOND
  const RETRY_SLEEP: int := 2 * SECOND

  /** Lower case, as far as the result is an ASCII letter. */
  function LowerChar(c: char): char {
    if 'A' <= c <= 'Z' then (c as int + 32) as char
    else if c == '\U{212A}' then 'k'
    else if c == '\U{0130}' then 'i'
    else c
  }

  function Lower(s: string): (r: string)
    ensures |r| == |s| && forall i :: 0 <= i < |s| ==> r[i] == LowerChar(s[i])
  {
    if s == "" then "" else [LowerChar(s[0])] + Lower(s[1..])
  }

  predicate Mentions(s: string, pat: string) {
    Find(s, pat, 0) >= 0
  }

  predicate StartupMessage(m: string) {
    || Mentions(m, "not initialized") || Mentions(m, "not running") || Mentions(m, "mode is disabled")
    || Mentions(m, "bgp only mode") || Mentions(m, "code = unavailable") || Mentions(m, "connection refused")
    || Mentions(m, "hasn't started")
  }

  /** Every error comes from a subsystem that is still starting. */
  predicate StartupErrors(errs: seq<string>) {
    |errs| > 0 && forall e :: e in errs ==> StartupMessage(Lower(e))
  }

  /** Every error comes from applying the BGP domains. */
  predicate BgpStartupOnly(errs: seq<string>) {
    |errs| > 0 && forall e :: e in errs ==> "apply bgp" <= Lower(e)
  }

  predicate RetryAllowed(attempt: nat, elapsed: int, errs: seq<string>) {
    StartupErrors(errs) && (attempt < BOOT_RETRIES || (elapsed < BGP_START_WAIT && BgpStartupOnly(errs)))
  }

  /** A clock that never goes back and sleeps at least as long as asked between attempts. */
  ghost predicate FairClock(elapsed: nat -> int) {
    elapsed(1) >= 0 && forall n: nat :: n >= 1 ==> SleepsAfter(elapsed, n)
  }

  predicate SleepsAfter(elapsed: nat -> int, n: nat) {
    elapsed(n + 1) >= elapsed(n) + RETRY_SLEEP
  }

  lemma {:induction false} ElapsedAtLeast(elapsed: nat -> int, n: nat)
    requires FairClock(elapsed) && n >= 1
    ensures elapsed(n) >= (n - 1) * RETRY_SLEEP
  {
    if n > 1 {
      ElapsedAtLeast(elapsed, n - 1);
      assert SleepsAfter(elapsed, n - 1);
    }
  }

  /** No attempt after the 75th is retried, so there are at most 76. */
  lemma RetriesBounded(elapsed: nat -> int, n: nat, errs: seq<string>)
    requires FairClock(elapsed) && n >= 1 && RetryAllowed(n, elapsed(n), errs)
    ensures n <= 75
  {
    ElapsedAtLeast(elapsed, n);
  }

  /** A clock that loses no time between the sleeps. */
  function ExactClock(n: nat): int {
    n * RETRY_SLEEP - RETRY_SLEEP
  }

  /** A message from BGP while it is still starting. */
  const BGP_DOWN: string := BGP_PREFIX + " " + NOT_RUNNING
  const BGP_PREFIX: string := "apply bgp"
  const NOT_RUNNING: string := "not running"

  /** ASCII text without capitals. */
  predicate SmallText(s: string) {
    forall c :: c in s ==> c as int < 128 && !('A' <= c <= 'Z')
  }

  lemma LowerSame(s: string)
    requires SmallText(s)
    ensures Lower(s) == s
  {
    forall i | 0 <= i < |s| ensures Lower(s)[i] == s[i] { assert s[i] in s; }
  }

  lemma LowerConcat(a: string, b: string)
    ensures Lower(a + b) == Lower(a) + Lower(b)
  {
  }

  lemma Mentioned(a: string, pat: string, b: string)
    requires SmallText(pat)
    ensures Mentions(Lower(a + pat + b), pat)
  {
    hide Find, Lower;
    LowerSame(pat);
    LowerConcat(a + pat, b);
    LowerConcat(a, pat);
    var s := Lower(a) + pat + Lower(b);
    assert s[|Lower(a)|..|Lower(a)| + |pat|] == pat;
    assert At(s, pat, |Lower(a)|);
  }

  /** The messages that say a subsystem is still starting, wherever they stand in the error. */
  const STARTUP_TEXTS: set<string> := {
    "not initialized", "not running", "mode is disabled", "bgp only mode",
    "code = unavailable", "connection refused", "hasn't started"}

  /** Errors are startup errors exactly when there are some and each contains one of these messages, in any case. */
  lemma StartupExactly(errs: seq<string>)
    ensures StartupErrors(errs) <==>
            errs != [] && forall i :: 0 <= i < |errs| ==> exists text :: text in STARTUP_TEXTS && Mentions(Lower(errs[i]), text)
  {
    hide Mentions, Lower;
    forall i | 0 <= i < |errs|
      ensures errs[i] in errs
      ensures StartupMessage(Lower(errs[i])) <==> exists text :: text in STARTUP_TEXTS && Mentions(Lower(errs[i]), text)
    {
      KnownMessage(Lower(errs[i]));
    }
  }

  lemma KnownMessage(m: string)
    ensures StartupMessage(m) <==> exists text :: text in STARTUP_TEXTS && Mentions(m, text)
  {
    hide Mentions;
    assert "not initialized" in STARTUP_TEXTS && "not running" in STARTUP_TEXTS && "mode is disabled" in STARTUP_TEXTS;
    assert "bgp only mode" in STARTUP_TEXTS && "code = unavailable" in STARTUP_TEXTS;
    assert "connection refused" in STARTUP_TEXTS && "hasn't started" in STARTUP_TEXTS;
  }

  /** Errors are about BGP alone exactly when there are some and each starts with its tag, in any case. */
  lemma BgpExactly(errs: seq<string>)
    ensures BgpStartupOnly(errs) <==>
            errs != [] && forall i :: 0 <= i < |errs| ==> |errs[i]| >= 9 && Lower(errs[i][..9]) == "apply bgp"
  {
    hide Lower;
    forall i | 0 <= i < |errs|
      ensures errs[i] in errs
      ensures "apply bgp" <= Lower(errs[i]) <==> |errs[i]| >= 9 && Lower(errs[i][..9]) == "apply bgp"
    {
      var e := errs[i];
      if |e| >= 9 {
        assert e == e[..9] + e[9..];
        LowerConcat(e[..9], e[9..]);
        assert Lower(e)[..9] == Lower(e[..9]);
      }
    }
  }

  lemma StartupRetried(a: string, text: string, b: string)
    requires text in STARTUP_TEXTS
    ensures StartupErrors([a + text + b])
  {
    hide Find, Mentions, Lower;
    SmallTexts(text);
    Mentioned(a, text, b);
  }

  lemma SmallTexts(text: string)
    requires text in STARTUP_TEXTS
    ensures SmallText(text)
  {
  }

  lemma BgpDownRetried()
    ensures StartupErrors([BGP_DOWN]) && BgpStartupOnly([BGP_DOWN])
  {
    hide Find, At, Mentions, Lower;
    assert SmallText(BGP_PREFIX) && SmallText(" ") && SmallText(NOT_RUNNING);
    LowerSame(BGP_DOWN);
    EndMentioned(BGP_PREFIX + " ", NOT_RUNNING);
    assert BGP_DOWN == BGP_PREFIX + (" " + NOT_RUNNING);
  }

  lemma EndMentioned(a: string, pat: string)
    ensures Mentions(a + pat, pat)
  {
    hide Find;
    assert At(a + pat, pat, |a|);
  }
}
