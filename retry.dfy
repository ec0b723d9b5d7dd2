/**
 * The retrying per-URL download of processing/serial_processing.py and the serial tally
 * `download_serial` over it. The world is an oracle: `oks[k]` tells whether attempt `k` for a
 * URL (one `Persist.RunAttempt`) succeeds; the sleeps are recorded as the sequence of
 * requested delays instead of waiting.
 */
module Retry {
  import opened Values

  /** The pair `(successful, failed)` a download reports. */
  datatype Counts = Counts(successful: int, failed: int)

  const DefaultMaxRetries: int := 3
  const DefaultInitialDelay: int := 5

  /** Two to the power `k`. */
  function Pow2(k: nat): (p: nat)
    ensures p >= 1
  {
    if k == 0 then 1 else 2 * Pow2(k - 1)
  }

  /** The delays slept before retries 1..k: the initial delay, doubled before each further retry. */
  function Backoff(initialDelay: int, k: nat): (ds: seq<int>)
    ensures |ds| == k
  {
    seq(k, i requires 0 <= i < k => initialDelay * Pow2(i))
  }

  /** Each delay doubles the one before it. */
  lemma {:induction false} BackoffDoubles(initialDelay: int, k: nat, i: nat)
    requires 0 < i < k
    ensures Backoff(initialDelay, k)[i] == 2 * Backoff(initialDelay, k)[i - 1]
  {
    assert Pow2(i) == 2 * Pow2(i - 1);
  }

  lemma {:induction false} BackoffSnoc(initialDelay: int, k: nat)
    ensures Backoff(initialDelay, k + 1) == Backoff(initialDelay, k) + [initialDelay * Pow2(k)]
  {
  }

  /** With the defaults the waits are 5, 10 and 20 seconds, before the 2nd, 3rd and 4th attempt. */
  lemma {:induction false} DefaultBackoff()
    ensures Backoff(DefaultInitialDelay, DefaultMaxRetries as nat) == [5, 10, 20]
  {
    assert Pow2(1) == 2 && Pow2(2) == 4;
  }

  /** Index of the first succeeding attempt, or `|oks|` when none succeeds. */
  function FirstSuccess(oks: seq<bool>): (k: nat)
    ensures k <= |oks|
  {
    if oks == [] then 0
    else if oks[0] then 0
    else 1 + FirstSuccess(oks[1..])
  }

  /** `FirstSuccess` names a succeeding attempt preceded only by failures. */
  lemma {:induction false} FirstSuccessSpec(oks: seq<bool>)
    ensures FirstSuccess(oks) < |oks| ==> oks[FirstSuccess(oks)]
    ensures forall j :: 0 <= j < FirstSuccess(oks) ==> !oks[j]
  {
    if oks != [] && !oks[0] {
      FirstSuccessSpec(oks[1..]);
      forall j | 1 <= j < FirstSuccess(oks) ensures !oks[j] {
        assert oks[j] == oks[1..][j - 1];
      }
    }
  }

  /** Only the first `n` answers matter to the first success within `n` attempts. */
  lemma {:induction false} FirstSuccessPrefix(oks: seq<bool>, n: nat)
    requires n <= |oks|
    ensures FirstSuccess(oks[..n]) == if FirstSuccess(oks) < n then FirstSuccess(oks) else n
  {
    if n > 0 && !oks[0] {
      assert oks[..n][1..] == oks[1..][..n - 1];
      FirstSuccessPrefix(oks[1..], n - 1);
    }
  }

  /** The error `time.sleep` raises for a negative length. */
  const NegativeSleep: Exc := ValueError("sleep length must be non-negative")

  /**
   * `download_youtube_audio_with_metadata(url, max_retries, initial_delay)`: up to
   * `max_retries + 1` attempts, a doubling wait before each retry, `(1, 0)` on the first
   * success and `(0, 1)` after the last failure; with a negative `max_retries` nothing is
   * attempted and `(0, 0)` is returned. A negative delay makes `time.sleep` raise out of the
   * `except` block, so the call itself raises.
   */
  method DownloadWithRetry(oks: seq<bool>, maxRetries: int, initialDelay: int)
    returns (outcome: Result<Counts, Exc>, ghost attempts: nat, ghost delays: seq<int>)
    requires maxRetries < |oks|
    ensures maxRetries < 0 ==> outcome == Ok(Counts(0, 0))
    ensures maxRetries >= 0 && (initialDelay >= 0 || maxRetries == 0 || oks[0]) ==>
      outcome == if FirstSuccess(oks[..maxRetries + 1]) <= maxRetries then Ok(Counts(1, 0)) else Ok(Counts(0, 1))
    ensures maxRetries > 0 && initialDelay < 0 && !oks[0] ==> outcome == Err(NegativeSleep)
    ensures maxRetries < 0 ==> attempts == 0 && delays == []
    ensures maxRetries >= 0 && (initialDelay >= 0 || maxRetries == 0 || oks[0]) ==>
      var k := FirstSuccess(oks[..maxRetries + 1]);
      && (k <= maxRetries ==> attempts == k + 1 && delays == Backoff(initialDelay, k))
      && (k > maxRetries ==> attempts == maxRetries + 1 && delays == Backoff(initialDelay, maxRetries))
    ensures maxRetries > 0 && initialDelay < 0 && !oks[0] ==> attempts == 1 && delays == []
  {
    var successful := 0;
    var failed := 0;
    var retries := 0;
    attempts := 0;
    delays := [];
    ghost var n := if maxRetries < 0 then 0 else maxRetries + 1;
    FirstSuccessPrefix(oks, n);
    FirstSuccessSpec(oks);
    while retries <= maxRetries
      invariant 0 <= retries <= n
      invariant maxRetries >= 0 ==> retries <= maxRetries
      invariant attempts == retries
      invariant retries <= FirstSuccess(oks)
      invariant delays == Backoff(initialDelay, retries)
      invariant successful == 0 && failed == 0
      invariant initialDelay < 0 ==> retries == 0
      decreases maxRetries - retries
    {
      attempts := attempts + 1;
      if oks[retries] {
        successful := successful + 1;
        return Ok(Counts(successful, failed)), attempts, delays;
      }
      retries := retries + 1;
      if retries <= maxRetries {
        var delay := initialDelay * Pow2(retries - 1);
        if delay < 0 {
          return Err(NegativeSleep), attempts, delays;
        }
        BackoffSnoc(initialDelay, retries - 1);
        delays := delays + [delay];
      } else {
        failed := failed + 1;
        return Ok(Counts(successful, failed)), attempts, delays;
      }
    }
    return Ok(Counts(successful, failed)), attempts, delays;
  }

  /** A URL counts as downloaded when one of its first `DefaultMaxRetries + 1` attempts succeeds. */
  predicate DownloadedWithin(oks: seq<bool>)
    requires |oks| > DefaultMaxRetries
  {
    FirstSuccess(oks[..DefaultMaxRetries + 1]) <= DefaultMaxRetries
  }

  /** The number of URLs, among the answers given, that are downloaded within the retry budget. */
  function CountDownloaded(answers: seq<seq<bool>>): (c: nat)
    requires forall i :: 0 <= i < |answers| ==> |answers[i]| > DefaultMaxRetries
    ensures c <= |answers|
  {
    if answers == [] then 0
    else
      var last := answers[|answers| - 1];
      CountDownloaded(answers[..|answers| - 1]) + (if DownloadedWithin(last) then 1 else 0)
  }

  /**
   * `download_serial(urls)` with the default retry policy: the totals add up to the number of
   * URLs, and the successes are exactly the URLs that succeed within four attempts.
   */
  method DownloadSerial(urls: seq<string>, answers: seq<seq<bool>>) returns (totals: Counts)
    requires |answers| == |urls|
    requires forall i :: 0 <= i < |answers| ==> |answers[i]| > DefaultMaxRetries
    ensures totals.successful + totals.failed == |urls|
    ensures totals.successful == CountDownloaded(answers)
  {
    var totalSuccessful := 0;
    var totalFailed := 0;
    for i := 0 to |urls|
      invariant totalSuccessful == CountDownloaded(answers[..i])
      invariant totalSuccessful + totalFailed == i
    {
      ghost var attempts: nat;
      ghost var delays: seq<int>;
      var outcome;
      outcome, attempts, delays := DownloadWithRetry(answers[i], DefaultMaxRetries, DefaultInitialDelay);
      assert answers[..i + 1][..i] == answers[..i];
      match outcome
      case Ok(c) =>
        totalSuccessful := totalSuccessful + c.successful;
        totalFailed := totalFailed + c.failed;
      case Err(_) =>
        assert false;
    }
    assert answers[..|urls|] == answers;
    return Counts(totalSuccessful, totalFailed);
  }
}
