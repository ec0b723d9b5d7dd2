/**
 * The earlier serial downloader at the repository root (serial_processing.py): one attempt
 * per URL, no retry, and a summary loop that keeps only the last URL's pair.
 */
module SerialLegacy {
  import opened Values
  import opened Persist
  import Retry

  /**
   * The no-retry per-URL function: exactly one of the two counters becomes 1, and it is
   * `successful` exactly when the fetch-and-persist attempt succeeds.
   */
  function DownloadOnce(env: AttemptEnv): (c: Retry.Counts)
    ensures c.successful + c.failed == 1
    ensures 0 <= c.successful <= 1
    ensures c.successful == 1 <==> Succeeds(env)
  {
    if Succeeds(env) then Retry.Counts(1, 0) else Retry.Counts(0, 1)
  }

  /** The number of URLs whose single attempt succeeds. */
  function CountSucceeded(envs: seq<AttemptEnv>): (n: nat)
    ensures n <= |envs|
  {
    if envs == [] then 0
    else CountSucceeded(envs[..|envs| - 1]) + (if Succeeds(envs[|envs| - 1]) then 1 else 0)
  }

  /**
   * The summary `download_serial` prints, as written: `successful` and `failed` are
   * reassigned on every iteration, so only the last URL's pair survives, and with no URL
   * at all they are never bound and reading them raises UnboundLocalError, a NameError.
   */
  method DownloadSerialAsWritten(urls: seq<string>, envs: seq<AttemptEnv>) returns (summary: Result<Retry.Counts, Exc>)
    requires |envs| == |urls|
    ensures urls == [] <==> summary == Err(NameError("successful"))
    ensures urls != [] ==> summary == Ok(DownloadOnce(envs[|urls| - 1]))
  {
    var bound := false;
    var successful := 0;
    var failed := 0;
    for i := 0 to |urls|
      invariant bound <==> i > 0
      invariant i > 0 ==> Retry.Counts(successful, failed) == DownloadOnce(envs[i - 1])
    {
      var c := DownloadOnce(envs[i]);
      successful, failed := c.successful, c.failed;
      bound := true;
    }
    if !bound {
      return Err(NameError("successful"));
    }
    return Ok(Retry.Counts(successful, failed));
  }

  /**
   * The summary as intended: the per-URL pairs are added up, so the totals account for
   * every URL and count exactly the succeeding ones.
   */
  method DownloadSerialTotals(urls: seq<string>, envs: seq<AttemptEnv>) returns (totals: Retry.Counts)
    requires |envs| == |urls|
    ensures totals.successful == CountSucceeded(envs)
    ensures totals.successful + totals.failed == |urls|
  {
    var totalSuccessful := 0;
    var totalFailed := 0;
    for i := 0 to |urls|
      invariant totalSuccessful == CountSucceeded(envs[..i])
      invariant totalSuccessful + totalFailed == i
    {
      var c := DownloadOnce(envs[i]);
      assert envs[..i + 1][..i] == envs[..i];
      totalSuccessful := totalSuccessful + c.successful;
      totalFailed := totalFailed + c.failed;
    }
    assert envs[..|urls|] == envs;
    return Retry.Counts(totalSuccessful, totalFailed);
  }

  /**
   * Two URLs that both download: the summary as written reports one success, the intended
   * totals report two.
   */
  lemma {:induction false} LastPairUndercounts(first: AttemptEnv, second: AttemptEnv)
    requires Succeeds(first) && Succeeds(second)
    ensures DownloadOnce([first, second][1]) == Retry.Counts(1, 0)
    ensures CountSucceeded([first, second]) == 2
  {
    assert [first, second][..1] == [first];
    assert [first][..0] == [];
  }
}
