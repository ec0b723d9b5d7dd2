/**
 * `download_parallel` of processing/parallel_processing.py (and its older copy in
 * parallel_processing.py): every URL is submitted once to a thread pool, the results are
 * collected in completion order, then counted. The completion order is a parameter: any
 * permutation of the submitted positions.
 */
module Parallel {
  import opened Values
  import opened Persist

  function Range(n: nat): (r: seq<nat>)
    ensures |r| == n
    ensures forall i :: 0 <= i < n ==> r[i] == i
  {
    seq(n, i requires 0 <= i < n => i)
  }

  /** `order` lists each of the positions `0..n-1` exactly once. */
  predicate IsPermutation(order: seq<nat>, n: nat) {
    |order| == n && multiset(order) == multiset(Range(n))
  }

  lemma {:induction false} PermutationBounds(order: seq<nat>, n: nat)
    requires IsPermutation(order, n)
    ensures forall k :: 0 <= k < |order| ==> order[k] < n
  {
    forall k | 0 <= k < |order| ensures order[k] < n {
      assert order[k] in multiset(order);
      assert order[k] in Range(n);
    }
  }

  /** Taking out the element at `j` takes one copy of it out of the multiset. */
  lemma {:induction false} RemoveAt<T>(s: seq<T>, j: nat)
    requires j < |s|
    ensures multiset(s) == multiset(s[..j] + s[j + 1..]) + multiset{s[j]}
  {
    assert s == s[..j] + [s[j]] + s[j + 1..];
    assert multiset(s) == multiset(s[..j]) + multiset([s[j]]) + multiset(s[j + 1..]);
  }

  lemma {:induction false} MultisetCancel<T>(a: multiset<T>, b: multiset<T>, x: T)
    requires a + multiset{x} == b + multiset{x}
    ensures a == b
  {
    forall y ensures a[y] == b[y] {
      assert (a + multiset{x})[y] == a[y] + multiset{x}[y];
      assert (b + multiset{x})[y] == b[y] + multiset{x}[y];
    }
  }

  /** `s` read in the order `order`. */
  function Apply<T>(s: seq<T>, order: seq<nat>): (r: seq<T>)
    requires forall k :: 0 <= k < |order| ==> order[k] < |s|
    ensures |r| == |order|
  {
    seq(|order|, k requires 0 <= k < |order| => s[order[k]])
  }

  lemma {:induction false} ApplyConcat<T>(s: seq<T>, p: seq<nat>, q: seq<nat>)
    requires forall k :: 0 <= k < |p| ==> p[k] < |s|
    requires forall k :: 0 <= k < |q| ==> q[k] < |s|
    ensures forall k :: 0 <= k < |p + q| ==> (p + q)[k] < |s|
    ensures Apply(s, p + q) == Apply(s, p) + Apply(s, q)
  {
  }

  /** Positions below `m` read the same from `s` and from its prefix of length `m`. */
  lemma {:induction false} ApplyPrefix<T>(s: seq<T>, m: nat, order: seq<nat>)
    requires m <= |s|
    requires forall k :: 0 <= k < |order| ==> order[k] < m
    ensures Apply(s[..m], order) == Apply(s, order)
  {
  }

  /** The positions other than `n - 1` of a permutation of `0..n-1` permute `0..n-2`. */
  lemma {:induction false} PermutationRemoveLast(order: seq<nat>, n: nat, j: nat)
    requires IsPermutation(order, n) && j < n && order[j] == n - 1
    ensures IsPermutation(order[..j] + order[j + 1..], n - 1)
  {
    var rest := order[..j] + order[j + 1..];
    assert Range(n) == Range(n - 1) + [n - 1];
    RemoveAt(order, j);
    assert multiset(Range(n)) == multiset(Range(n - 1)) + multiset{(n - 1) as nat};
    MultisetCancel(multiset(rest), multiset(Range(n - 1)), (n - 1) as nat);
  }

  /** Reading position `j` separately from the others. */
  lemma {:induction false} ApplyRemoveAt<T>(s: seq<T>, order: seq<nat>, j: nat, rest: seq<nat>)
    requires forall k :: 0 <= k < |order| ==> order[k] < |s|
    requires j < |order| && rest == order[..j] + order[j + 1..]
    requires forall k :: 0 <= k < |rest| ==> rest[k] < |s|
    ensures multiset(Apply(s, order)) == multiset(Apply(s, rest)) + multiset{s[order[j]]}
  {
    var before, after := order[..j], order[j + 1..];
    ApplyConcat(s, before, after);
    assert order == before + [order[j]] + after;
    ApplyConcat(s, before, [order[j]]);
    ApplyConcat(s, before + [order[j]], after);
    assert Apply(s, [order[j]]) == [s[order[j]]];
  }

  /** Reading a sequence in any permuted order keeps its elements with their multiplicities. */
  lemma {:induction false} ApplyPermutation<T>(s: seq<T>, order: seq<nat>)
    requires IsPermutation(order, |s|)
    requires forall k :: 0 <= k < |order| ==> order[k] < |s|
    ensures multiset(Apply(s, order)) == multiset(s)
    decreases |s|
  {
    var n := |s|;
    if n > 0 {
      assert n - 1 in multiset(Range(n)) by { assert Range(n)[n - 1] == n - 1; }
      var j :| 0 <= j < |order| && order[j] == n - 1;
      var rest := order[..j] + order[j + 1..];
      PermutationRemoveLast(order, n, j);
      PermutationBounds(rest, n - 1);
      var init := s[..n - 1];
      ApplyPrefix(s, n - 1, rest);
      ApplyPermutation(init, rest);
      ApplyRemoveAt(s, order, j, rest);
      assert s == init + [s[n - 1]];
    }
  }

  /** The number of results whose status is success. */
  function CountSuccess(results: seq<ItemResult>): (n: nat)
    ensures n <= |results|
  {
    if results == [] then 0
    else CountSuccess(results[..|results| - 1]) + (if results[|results| - 1].ItemSuccess? then 1 else 0)
  }

  lemma {:induction false} CountSuccessAppend(a: seq<ItemResult>, b: seq<ItemResult>)
    ensures CountSuccess(a + b) == CountSuccess(a) + CountSuccess(b)
    decreases |b|
  {
    if b == [] {
      assert a + b == a;
    } else {
      assert (a + b)[..|a + b| - 1] == a + b[..|b| - 1];
      CountSuccessAppend(a, b[..|b| - 1]);
    }
  }

  /** The count depends only on which results there are, not on the order they arrive in. */
  lemma {:induction false} CountSuccessPermutation(a: seq<ItemResult>, b: seq<ItemResult>)
    requires multiset(a) == multiset(b)
    ensures CountSuccess(a) == CountSuccess(b)
    decreases |a|
  {
    if a == [] {
      assert |multiset(b)| == 0;
    } else {
      var x := a[|a| - 1];
      var init := a[..|a| - 1];
      assert a == init + [x];
      assert x in multiset(b);
      var j :| 0 <= j < |b| && b[j] == x;
      var rest := b[..j] + b[j + 1..];
      assert b == b[..j] + [x] + b[j + 1..];
      RemoveAt(b, j);
      assert multiset(a) == multiset(init) + multiset{x};
      MultisetCancel(multiset(init), multiset(rest), x);
      CountSuccessPermutation(init, rest);
      CountSuccessAppend(b[..j], [x]);
      CountSuccessAppend(b[..j] + [x], b[j + 1..]);
      CountSuccessAppend(b[..j], b[j + 1..]);
      assert [x][..0] == [];
    }
  }

  /** The per-URL results in submission order. */
  function Submitted(urls: seq<string>, envs: seq<AttemptEnv>): (rs: seq<ItemResult>)
    requires |envs| == |urls|
    ensures |rs| == |urls|
    ensures forall i :: 0 <= i < |urls| ==> rs[i].url == urls[i]
  {
    seq(|urls|, i requires 0 <= i < |urls| => DownloadItem(urls[i], envs[i]))
  }

  function UrlsOf(results: seq<ItemResult>): (us: seq<string>)
    ensures |us| == |results|
    ensures forall k :: 0 <= k < |results| ==> us[k] == results[k].url
  {
    seq(|results|, k requires 0 <= k < |results| => results[k].url)
  }

  /**
   * Results collected in a completion order hold every URL once and the same number of
   * successes as the results in submission order.
   */
  lemma {:induction false} CollectedResults(urls: seq<string>, envs: seq<AttemptEnv>, order: seq<nat>, results: seq<ItemResult>)
    requires |envs| == |urls|
    requires IsPermutation(order, |urls|)
    requires |results| == |order|
    requires forall k :: 0 <= k < |results| ==> order[k] < |urls| && results[k] == Submitted(urls, envs)[order[k]]
    ensures multiset(UrlsOf(results)) == multiset(urls)
    ensures CountSuccess(results) == CountSuccess(Submitted(urls, envs))
  {
    var submitted := Submitted(urls, envs);
    assert results == Apply(submitted, order);
    ApplyPermutation(submitted, order);
    CountSuccessPermutation(results, submitted);
    assert UrlsOf(results) == Apply(urls, order);
    ApplyPermutation(urls, order);
  }

  /**
   * `download_parallel(urls)`: one result per submitted URL, appended as its future
   * completes; the URLs of the results are the submitted ones, each as often as submitted
   * (no retry, no loss); the success count equals that of the submission-order results, so
   * it does not depend on the completion order, and `failed` is the remainder.
   */
  method DownloadParallel(urls: seq<string>, envs: seq<AttemptEnv>, order: seq<nat>)
    returns (results: seq<ItemResult>, successful: nat, failed: int)
    requires |envs| == |urls|
    requires IsPermutation(order, |urls|)
    ensures |results| == |urls|
    ensures forall k :: 0 <= k < |results| ==> order[k] < |urls| && results[k] == Submitted(urls, envs)[order[k]]
    ensures multiset(UrlsOf(results)) == multiset(urls)
    ensures successful == CountSuccess(Submitted(urls, envs))
    ensures successful + failed == |urls|
  {
    ghost var submitted := Submitted(urls, envs);
    PermutationBounds(order, |urls|);
    results := [];
    for k := 0 to |order|
      invariant |results| == k
      invariant forall i :: 0 <= i < k ==> results[i] == submitted[order[i]]
    {
      var item := DownloadItem(urls[order[k]], envs[order[k]]);
      assert item == submitted[order[k]];
      results := results + [item];
    }
    CollectedResults(urls, envs, order, results);
    successful := CountSuccess(results);
    failed := |results| - successful;
  }
}
