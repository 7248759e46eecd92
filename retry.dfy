/**
 * The two bounded retry loops: the account-existence lookup and the points
 * refund. The remote service is replaced by a reply world: `replies(k)` is
 * the outcome the k-th attempt (counting from 0) would see. Each loop makes at
 * most one attempt per entry of the delay schedule. Only which delays are
 * awaited is modelled, not the time that passes.
 */
module Retry {

  /** The back-off schedule in seconds: one attempt per entry. */
  const RetryDelays: seq<nat> := [1, 2, 5]

  /**
   * The outcome of one HTTP attempt: a response with its status code, a
   * client-library error (connection failures and the like), or any other
   * exception raised by the call.
   */
  datatype Attempt = Response(status: int) | ClientError | OtherError
  {
    predicate Raised() { !Response? }
  }

  /** What the existence lookup yields: an answer, or an exception it does not catch. */
  datatype Lookup = Answer(found: bool) | Uncaught

  /** The value a retry loop returns, how many attempts it made, and the delays it awaited, in order. */
  datatype Retried<T> = Retried(value: T, attempts: nat, sleeps: seq<nat>)

  /**
   * The existence lookup from attempt `i` on. The first response of any status
   * ends the loop with "exists" exactly when the status is 200; only a client
   * error is retried (after its delay); any other exception escapes; when the
   * schedule is exhausted the answer is "does not exist".
   */
  function MojangRetry(replies: nat -> Attempt, i: nat): (r: Retried<Lookup>)
    requires i <= |RetryDelays|
    decreases |RetryDelays| - i
    ensures i <= r.attempts <= |RetryDelays| && (i < |RetryDelays| ==> i < r.attempts)
    ensures forall k :: i <= k < r.attempts - 1 ==> replies(k) == ClientError
    ensures r.attempts == i ==> r.value == Answer(false) && r.sleeps == []
    ensures i < r.attempts && replies(r.attempts - 1).Response? ==>
              r.value == Answer(replies(r.attempts - 1).status == 200)
              && r.sleeps == RetryDelays[i..r.attempts - 1]
    ensures i < r.attempts && replies(r.attempts - 1) == OtherError ==>
              r.value == Uncaught && r.sleeps == RetryDelays[i..r.attempts - 1]
    ensures i < r.attempts && replies(r.attempts - 1) == ClientError ==>
              r.attempts == |RetryDelays| && r.value == Answer(false) && r.sleeps == RetryDelays[i..]
  {
    if i == |RetryDelays| then Retried(Answer(false), i, [])
    else
      match replies(i)
      case Response(status) => Retried(Answer(status == 200), i + 1, [])
      case OtherError => Retried(Uncaught, i + 1, [])
      case ClientError =>
        var rest := MojangRetry(replies, i + 1);
        Retried(rest.value, rest.attempts, [RetryDelays[i]] + rest.sleeps)
  }

  /** The delays awaited by the refund loop over attempts `i` to `j - 1`: one per attempt that raised. */
  function FailureDelays(replies: nat -> Attempt, i: nat, j: nat): (d: seq<nat>)
    requires i <= j <= |RetryDelays|
    decreases j - i
    ensures |d| <= j - i
  {
    if i == j then []
    else (if replies(i).Raised() then [RetryDelays[i]] else []) + FailureDelays(replies, i + 1, j)
  }

  /**
   * The refund from attempt `i` on. It succeeds exactly at the first response
   * with status 200. Any other response is retried at once, without a delay;
   * an exception of any kind is retried after its delay; when the schedule is
   * exhausted the refund has failed.
   */
  function RefundRetry(replies: nat -> Attempt, i: nat): (r: Retried<bool>)
    requires i <= |RetryDelays|
    decreases |RetryDelays| - i
    ensures i <= r.attempts <= |RetryDelays| && (i < |RetryDelays| ==> i < r.attempts)
    ensures r.value <==> i < r.attempts && replies(r.attempts - 1) == Response(200)
    ensures !r.value ==> r.attempts == |RetryDelays|
    ensures forall k :: i <= k < r.attempts - 1 ==> replies(k) != Response(200)
    ensures r.sleeps == FailureDelays(replies, i, r.attempts)
  {
    if i == |RetryDelays| then Retried(false, i, [])
    else
      match replies(i)
      case Response(status) =>
        if status == 200 then Retried(true, i + 1, []) else RefundRetry(replies, i + 1)
      case _ =>
        var rest := RefundRetry(replies, i + 1);
        Retried(rest.value, rest.attempts, [RetryDelays[i]] + rest.sleeps)
  }

  /** The lookup loop: returns on the first response, sleeps and retries on a client error. */
  method ExistsMojang(replies: nat -> Attempt) returns (r: Lookup, attempts: nat, sleeps: seq<nat>)
    ensures Retried(r, attempts, sleeps) == MojangRetry(replies, 0)
  {
    attempts, sleeps := 0, [];
    for k := 0 to |RetryDelays|
      invariant attempts == k
      invariant sleeps == RetryDelays[..k]
      invariant forall j :: 0 <= j < k ==> replies(j) == ClientError
    {
      var delay := RetryDelays[k];
      attempts := attempts + 1;
      match replies(k)
      case Response(status) =>
        LookupStopsAt(replies, k);
        return Answer(status == 200), attempts, sleeps;
      case OtherError =>
        LookupStopsAt(replies, k);
        return Uncaught, attempts, sleeps;
      case ClientError =>
        sleeps := sleeps + [delay];
    }
    r := Answer(false);
  }

  /** The refund loop: returns on a 200 response, goes on at once after any other, sleeps and retries on an exception. */
  method RefundPoints(replies: nat -> Attempt) returns (refunded: bool, attempts: nat, sleeps: seq<nat>)
    ensures Retried(refunded, attempts, sleeps) == RefundRetry(replies, 0)
  {
    attempts, sleeps := 0, [];
    for k := 0 to |RetryDelays|
      invariant attempts == k
      invariant sleeps == FailureDelays(replies, 0, k)
      invariant forall j :: 0 <= j < k ==> replies(j) != Response(200)
    {
      var delay := RetryDelays[k];
      attempts := attempts + 1;
      FailureDelaysAppend(replies, 0, k);
      match replies(k)
      case Response(status) =>
        if status == 200 {
          RefundStopsAt(replies, k);
          return true, attempts, sleeps;
        }
      case _ =>
        sleeps := sleeps + [delay];
    }
    refunded := false;
  }

  /** The delays awaited over one more attempt: the earlier ones, then this attempt's if it raised. */
  lemma {:induction false} FailureDelaysAppend(replies: nat -> Attempt, i: nat, j: nat)
    requires i <= j < |RetryDelays|
    decreases j - i
    ensures FailureDelays(replies, i, j + 1)
            == FailureDelays(replies, i, j) + (if replies(j).Raised() then [RetryDelays[j]] else [])
  {
    if i < j {
      FailureDelaysAppend(replies, i + 1, j);
    }
  }

  /** Attempts that all got a response leave nothing to await. */
  lemma {:induction false} FailureDelaysNoneRaised(replies: nat -> Attempt, i: nat, j: nat)
    requires i <= j <= |RetryDelays|
    requires forall k :: i <= k < j ==> replies(k).Response?
    decreases j - i
    ensures FailureDelays(replies, i, j) == []
  {
    if i < j {
      FailureDelaysNoneRaised(replies, i + 1, j);
    }
  }

  /** Attempts that all raised await their scheduled delays, every one of them, in order. */
  lemma {:induction false} FailureDelaysAllRaised(replies: nat -> Attempt, i: nat, j: nat)
    requires i <= j <= |RetryDelays|
    requires forall k :: i <= k < j ==> replies(k).Raised()
    decreases j - i
    ensures FailureDelays(replies, i, j) == RetryDelays[i..j]
  {
    if i < j {
      FailureDelaysAllRaised(replies, i + 1, j);
      assert RetryDelays[i..j] == [RetryDelays[i]] + RetryDelays[i + 1..j];
    }
  }

  /** A lookup whose every attempt hits a client error answers "does not exist" after the whole schedule. */
  lemma LookupExhausted(replies: nat -> Attempt)
    requires forall k :: 0 <= k < |RetryDelays| ==> replies(k) == ClientError
    ensures MojangRetry(replies, 0) == Retried(Answer(false), |RetryDelays|, RetryDelays)
  {
  }

  /**
   * A lookup stops at the first attempt that is not a client error: a
   * response is final whatever its status, and any other exception escapes.
   */
  lemma LookupStopsAt(replies: nat -> Attempt, k: nat)
    requires k < |RetryDelays| && replies(k) != ClientError
    requires forall j :: 0 <= j < k ==> replies(j) == ClientError
    ensures MojangRetry(replies, 0)
            == Retried(if replies(k).Response? then Answer(replies(k).status == 200) else Uncaught,
                       k + 1, RetryDelays[..k])
  {
  }

  /** A refund stops at the first response with status 200, having slept after each exception before it. */
  lemma RefundStopsAt(replies: nat -> Attempt, k: nat)
    requires k < |RetryDelays| && replies(k) == Response(200)
    requires forall j :: 0 <= j < k ==> replies(j) != Response(200)
    ensures RefundRetry(replies, 0) == Retried(true, k + 1, FailureDelays(replies, 0, k + 1))
  {
  }

  /** A refund succeeds exactly when some scheduled attempt gets status 200. */
  lemma RefundSucceedsIff(replies: nat -> Attempt)
    ensures RefundRetry(replies, 0).value <==> exists k :: 0 <= k < |RetryDelays| && replies(k) == Response(200)
  {
    var r := RefundRetry(replies, 0);
    if !r.value {
      forall k | 0 <= k < |RetryDelays| ensures replies(k) != Response(200) {
        if k < r.attempts - 1 {
        } else {
          assert k == r.attempts - 1;
        }
      }
    }
  }

  /** A refund that only ever gets non-200 responses uses up the schedule without sleeping. */
  lemma RefundNeverSleepsOnResponses(replies: nat -> Attempt)
    requires forall k :: 0 <= k < |RetryDelays| ==> replies(k).Response? && replies(k).status != 200
    ensures RefundRetry(replies, 0) == Retried(false, |RetryDelays|, [])
  {
    FailureDelaysNoneRaised(replies, 0, |RetryDelays|);
  }

  /**
   * The two loops treat the same replies differently: a 503 followed by a 200
   * makes the lookup answer "does not exist" after one attempt, while the
   * refund goes on at once and succeeds on the second attempt.
   */
  lemma LoopsDifferOnNon200(replies: nat -> Attempt)
    requires replies(0) == Response(503) && replies(1) == Response(200)
    ensures MojangRetry(replies, 0) == Retried(Answer(false), 1, [])
    ensures RefundRetry(replies, 0) == Retried(true, 2, [])
  {
  }
}
