/** The deletion executor (`delete_posts`): every selected post is deleted
    with up to three attempts, retrying with exponential backoff only on
    rate-limit errors; failures never stop the batch, and a fixed pause
    separates consecutive posts.

    The remote delete call is an oracle that answers the `attempt`-th try
    (counting from 0) for the post at position `index` (counting from 0).
    The sleeps the executor issues and the delete requests it sends are
    returned as logs, so that the retry and pacing policy can be stated. */
module Deletion {
  import opened Text
  import opened Filter

  const MaxAttempts: nat := 3
  /** First backoff, in milliseconds (5 s); doubled after every retry. */
  const InitialRetryDelayMs: nat := 5000
  /** Pause between consecutive posts, in milliseconds (0.5 s). */
  const PacingDelayMs: nat := 500
  const PostCollection: string := "app.bsky.feed.post"

  datatype DeleteResult = Ok | Err(message: string)

  type Oracle = (nat, nat) -> DeleteResult

  /** The heuristic that decides whether an error is worth retrying: its
      lower-cased text mentions "rate", or its text mentions "429". */
  predicate IsRateLimitError(message: string) {
    Contains(Lower(message), "rate") || Contains(message, "429")
  }

  predicate IsRateLimited(r: DeleteResult) {
    r.Err? && IsRateLimitError(r.message)
  }

  datatype Outcome = Deleted | FailedRateLimited | FailedOther(message: string)

  /** The arguments of one `delete_record` call. */
  datatype DeleteRequest = DeleteRequest(repo: string, collection: string, rkey: string)

  /** What happened to one post: its final outcome, how many delete calls
      were made and the backoff sleeps between them. */
  datatype PostRun = PostRun(uri: string, outcome: Outcome, attempts: nat, backoffs: seq<nat>)

  function Pow2(k: nat): (p: nat)
    ensures p >= 1
  {
    if k == 0 then 1 else 2 * Pow2(k - 1)
  }

  /** Every attempt before the `n`-th met a rate-limit error. */
  predicate RateLimitedBefore(oracle: Oracle, index: nat, n: nat) {
    forall k: nat :: k < n ==> IsRateLimited(oracle(index, k))
  }

  /** The backoffs are 5 s, 10 s, 20 s, ... in order. */
  predicate DoublingBackoffs(backoffs: seq<nat>) {
    forall k :: 0 <= k < |backoffs| ==> backoffs[k] == InitialRetryDelayMs * Pow2(k)
  }

  /** The outcome that the answer to the `attempts`-th attempt settles. */
  predicate SettledBy(last: DeleteResult, attempts: nat, outcome: Outcome) {
    match outcome
    case Deleted => last.Ok?
    case FailedRateLimited => IsRateLimited(last) && attempts == MaxAttempts
    case FailedOther(m) => last == Err(m) && !IsRateLimitError(m)
  }

  /** The retry policy for one post, stated over its attempts: every
      attempt but the last met a rate-limit error and was followed by a
      backoff of 5 s, 10 s, ...; the last attempt decides the outcome, and a
      rate-limit error only ends the post once all attempts are used. */
  predicate ValidRun(oracle: Oracle, index: nat, run: PostRun) {
    && 1 <= run.attempts <= MaxAttempts
    && RateLimitedBefore(oracle, index, run.attempts - 1)
    && |run.backoffs| == run.attempts - 1
    && DoublingBackoffs(run.backoffs)
    && SettledBy(oracle(index, run.attempts - 1), run.attempts, run.outcome)
  }

  /** The request sent for a post: the account's repository, the post
      collection and the last segment of the post's URI. */
  function RequestFor(repo: string, uri: string): DeleteRequest {
    DeleteRequest(repo, PostCollection, RecordKey(uri))
  }

  /** Deletes one post, retrying on rate limits (the inner loop of
      `delete_posts`). */
  method DeleteWithRetry(oracle: Oracle, index: nat, uri: string, repo: string)
    returns (run: PostRun, requests: seq<DeleteRequest>)
    ensures ValidRun(oracle, index, run)
    ensures run.uri == uri
    ensures |requests| == run.attempts
    ensures forall r <- requests :: r == RequestFor(repo, uri)
  {
    var request := RequestFor(repo, uri);
    var retryDelay := InitialRetryDelayMs;
    var backoffs: seq<nat> := [];
    var result := oracle(index, 0);
    requests := [request];
    var attempts: nat := 1;
    while IsRateLimited(result) && attempts < MaxAttempts
      invariant 1 <= attempts <= MaxAttempts
      invariant result == oracle(index, attempts - 1)
      invariant |requests| == attempts
      invariant forall r <- requests :: r == request
      invariant |backoffs| == attempts - 1
      invariant DoublingBackoffs(backoffs)
      invariant retryDelay == InitialRetryDelayMs * Pow2(|backoffs|)
      invariant RateLimitedBefore(oracle, index, attempts - 1)
      decreases MaxAttempts - attempts
    {
      // back off, then try again with the delay doubled
      backoffs := backoffs + [retryDelay];
      retryDelay := retryDelay * 2;
      result := oracle(index, attempts);
      requests := requests + [request];
      attempts := attempts + 1;
    }
    var outcome := match result
      case Ok => Deleted
      case Err(message) => if IsRateLimitError(message) then FailedRateLimited else FailedOther(message);
    assert SettledBy(result, attempts, outcome);
    run := PostRun(uri, outcome, attempts, backoffs);
  }

  /** Number of runs that ended with the post deleted. */
  function CountDeleted(runs: seq<PostRun>): (n: nat)
    ensures n <= |runs|
  {
    if |runs| == 0 then 0
    else CountDeleted(runs[..|runs| - 1]) + (if runs[|runs| - 1].outcome.Deleted? then 1 else 0)
  }

  /** The delete calls one run made, all for the same record. */
  function RunRequests(repo: string, run: PostRun): (rs: seq<DeleteRequest>)
    ensures |rs| == run.attempts
    ensures forall r <- rs :: r == RequestFor(repo, run.uri)
  {
    seq(run.attempts, _ => RequestFor(repo, run.uri))
  }

  /** All delete calls of a batch, post by post. */
  function AllRequests(repo: string, runs: seq<PostRun>): seq<DeleteRequest> {
    if |runs| == 0 then []
    else AllRequests(repo, runs[..|runs| - 1]) + RunRequests(repo, runs[|runs| - 1])
  }

  /** All sleeps of a batch: each post's backoffs, and one pacing pause
      between consecutive posts but none after the last. */
  function Schedule(runs: seq<PostRun>): seq<nat> {
    if |runs| == 0 then []
    else if |runs| == 1 then runs[0].backoffs
    else Schedule(runs[..|runs| - 1]) + [PacingDelayMs] + runs[|runs| - 1].backoffs
  }

  /** How the batch summaries grow when one more run is appended. */
  lemma AppendRun(repo: string, runs: seq<PostRun>, run: PostRun)
    ensures CountDeleted(runs + [run]) == CountDeleted(runs) + (if run.outcome.Deleted? then 1 else 0)
    ensures AllRequests(repo, runs + [run]) == AllRequests(repo, runs) + RunRequests(repo, run)
    ensures Schedule(runs + [run]) == if |runs| == 0 then run.backoffs else Schedule(runs) + [PacingDelayMs] + run.backoffs
  {
    var more := runs + [run];
    assert more[..|more| - 1] == runs;
    assert more[|more| - 1] == run;
  }

  /** `delete_posts`: a dry run touches nothing; otherwise every post is
      attempted once in order, and each ends deleted or failed. */
  method DeletePosts(oracle: Oracle, repo: string, items: seq<DeleteItem>, dryRun: bool)
    returns (runs: seq<PostRun>, deleted: nat, failed: nat, requests: seq<DeleteRequest>, sleeps: seq<nat>)
    ensures dryRun ==> runs == [] && requests == [] && sleeps == [] && deleted == 0 && failed == 0
    ensures !dryRun ==> |runs| == |items|
    ensures forall j :: 0 <= j < |runs| ==> runs[j].uri == items[j].post.uri && ValidRun(oracle, j, runs[j])
    ensures deleted == CountDeleted(runs)
    ensures deleted + failed == |runs|
    ensures requests == AllRequests(repo, runs)
    ensures sleeps == Schedule(runs)
  {
    runs, deleted, failed, requests, sleeps := [], 0, 0, [], [];
    if dryRun {
      return;
    }
    var i := 0;
    while i < |items|
      invariant 0 <= i <= |items|
      invariant |runs| == i
      invariant forall j :: 0 <= j < i ==> runs[j].uri == items[j].post.uri && ValidRun(oracle, j, runs[j])
      invariant deleted == CountDeleted(runs)
      invariant deleted + failed == i
      invariant requests == AllRequests(repo, runs)
      invariant sleeps == Schedule(runs) + (if 0 < i < |items| then [PacingDelayMs] else [])
    {
      var run, calls := DeleteWithRetry(oracle, i, items[i].post.uri, repo);
      assert calls == RunRequests(repo, run) by {
        var expected := RunRequests(repo, run);
        forall k | 0 <= k < |calls|
          ensures calls[k] == expected[k]
        {
          assert calls[k] in calls;
          assert expected[k] in expected;
        }
      }
      AppendRun(repo, runs, run);
      runs := runs + [run];
      requests := requests + calls;
      sleeps := sleeps + run.backoffs;
      if run.outcome.Deleted? {
        deleted := deleted + 1;
      } else {
        failed := failed + 1;
      }
      if i + 1 < |items| {
        sleeps := sleeps + [PacingDelayMs];
      }
      i := i + 1;
    }
  }

  // ---------------------------------------------------------------------
  // Properties of the retry policy
  // ---------------------------------------------------------------------

  /** The oracle's answers fix the run: two runs for the same post that
      both follow the policy are the same run. */
  lemma ValidRunDeterministic(oracle: Oracle, index: nat, r1: PostRun, r2: PostRun)
    requires ValidRun(oracle, index, r1) && ValidRun(oracle, index, r2)
    requires r1.uri == r2.uri
    ensures r1 == r2
  {
    var last1 := oracle(index, r1.attempts - 1);
    var last2 := oracle(index, r2.attempts - 1);
    assert !IsRateLimited(last1) || r1.attempts == MaxAttempts;
    assert !IsRateLimited(last2) || r2.attempts == MaxAttempts;
    assert r1.attempts == r2.attempts;
    assert r1.outcome == r2.outcome;
    forall k | 0 <= k < |r1.backoffs|
      ensures r1.backoffs[k] == r2.backoffs[k]
    {
    }
  }

  /** A post that meets a rate-limit error on every attempt is tried three
      times, with backoffs of 5 s and then 10 s, and fails as rate-limited. */
  lemma PersistentRateLimit(oracle: Oracle, index: nat, run: PostRun)
    requires ValidRun(oracle, index, run)
    requires forall k: nat :: k < MaxAttempts ==> IsRateLimited(oracle(index, k))
    ensures run.attempts == MaxAttempts
    ensures run.backoffs == [5000, 10000]
    ensures run.outcome == FailedRateLimited
  {
    assert IsRateLimited(oracle(index, run.attempts - 1));
    assert run.attempts == MaxAttempts;
    assert run.backoffs[0] == InitialRetryDelayMs * Pow2(0);
    assert run.backoffs[1] == InitialRetryDelayMs * Pow2(1);
  }

  /** An error that is not a rate limit ends the post after the attempt
      that met it, without any retry or backoff. */
  lemma OtherErrorNotRetried(oracle: Oracle, index: nat, run: PostRun, m: string)
    requires ValidRun(oracle, index, run)
    requires oracle(index, 0) == Err(m) && !IsRateLimitError(m)
    ensures run.attempts == 1 && run.backoffs == []
    ensures run.outcome == FailedOther(m)
  {
    assert !IsRateLimited(oracle(index, 0));
    assert run.attempts == 1;
  }

  /** A post whose first delete call succeeds is deleted with one call. */
  lemma FirstAttemptSucceeds(oracle: Oracle, index: nat, run: PostRun)
    requires ValidRun(oracle, index, run)
    requires oracle(index, 0).Ok?
    ensures run.attempts == 1 && run.backoffs == [] && run.outcome == Deleted
  {
    assert !IsRateLimited(oracle(index, 0));
    assert run.attempts == 1;
  }

  /** The rate-limit test ignores letter case. */
  lemma RateLimitIgnoresCase(message: string)
    ensures IsRateLimitError(Lower(message)) == IsRateLimitError(message)
  {
    LowerIdempotent(message);
    var low := Lower(message);
    if Contains(message, "429") {
      var i :| MatchAt(message, "429", i);
      assert low[i..i + 3] == message[i..i + 3];
      assert MatchAt(low, "429", i);
    }
    if Contains(low, "429") {
      var i :| MatchAt(low, "429", i);
      forall k | i <= k < i + 3
        ensures message[k] == low[k]
      {
        assert low[k] == "429"[k - i];
      }
      assert message[i..i + 3] == low[i..i + 3];
      assert MatchAt(message, "429", i);
    }
  }

  // ---------------------------------------------------------------------
  // Properties of the batch
  // ---------------------------------------------------------------------

  function Occurrences(xs: seq<nat>, v: nat): nat {
    if |xs| == 0 then 0
    else Occurrences(xs[..|xs| - 1], v) + (if xs[|xs| - 1] == v then 1 else 0)
  }

  lemma {:induction false} OccurrencesAppend(xs: seq<nat>, ys: seq<nat>, v: nat)
    ensures Occurrences(xs + ys, v) == Occurrences(xs, v) + Occurrences(ys, v)
    decreases |ys|
  {
    if |ys| == 0 {
      assert xs + ys == xs;
    } else {
      var front := ys[..|ys| - 1];
      assert (xs + ys)[..|xs + ys| - 1] == xs + front;
      assert (xs + ys)[|xs + ys| - 1] == ys[|ys| - 1];
      OccurrencesAppend(xs, front, v);
    }
  }

  /** Backoffs are never as short as the pacing pause. */
  lemma {:induction false} NoPacingInBackoffs(backoffs: seq<nat>)
    requires DoublingBackoffs(backoffs)
    ensures Occurrences(backoffs, PacingDelayMs) == 0
    decreases |backoffs|
  {
    if |backoffs| > 0 {
      var front := backoffs[..|backoffs| - 1];
      assert DoublingBackoffs(front) by {
        forall k | 0 <= k < |front|
          ensures front[k] == InitialRetryDelayMs * Pow2(k)
        {
          assert front[k] == backoffs[k];
        }
      }
      NoPacingInBackoffs(front);
      assert backoffs[|backoffs| - 1] >= InitialRetryDelayMs;
    }
  }

  /** A batch of n posts pauses for pacing exactly n - 1 times: between
      consecutive posts, never after the last. */
  lemma {:induction false} PacingBetweenPosts(runs: seq<PostRun>)
    requires forall j :: 0 <= j < |runs| ==> DoublingBackoffs(runs[j].backoffs)
    ensures Occurrences(Schedule(runs), PacingDelayMs) == if |runs| == 0 then 0 else |runs| - 1
    decreases |runs|
  {
    if |runs| == 1 {
      NoPacingInBackoffs(runs[0].backoffs);
    } else if |runs| > 1 {
      var front := runs[..|runs| - 1];
      var last := runs[|runs| - 1];
      PacingBetweenPosts(front);
      NoPacingInBackoffs(last.backoffs);
      OccurrencesAppend(Schedule(front), [PacingDelayMs], PacingDelayMs);
      OccurrencesAppend(Schedule(front) + [PacingDelayMs], last.backoffs, PacingDelayMs);
      assert Occurrences([PacingDelayMs], PacingDelayMs) == 1 by {
        assert [PacingDelayMs][..0] == [];
      }
    }
  }

  /** A batch never makes more than three delete calls per post. */
  lemma {:induction false} RequestsBounded(repo: string, runs: seq<PostRun>)
    requires forall j :: 0 <= j < |runs| ==> runs[j].attempts <= MaxAttempts
    ensures |AllRequests(repo, runs)| <= MaxAttempts * |runs|
    decreases |runs|
  {
    if |runs| > 0 {
      RequestsBounded(repo, runs[..|runs| - 1]);
    }
  }
}
