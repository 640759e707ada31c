/** `promiseQueueWithJittering`: attempts separated by quadratically growing waits, until one succeeds, all
    have failed, or the queue is cancelled. Times are in milliseconds from any fixed origin. */
module RetryQueue {
  import opened Text

  /** How one attempt ends; an attempt may itself give up with the cancel error. */
  datatype Ending = Success(value: int) | Failure(error: int) | CancelFailure

  /** One attempt as the world decides it: how much later than asked its timer fires, how long it takes, how it ends. */
  datatype Attempt = Attempt(late: nat, takes: nat, ending: Ending)

  /** What `start` settles to; with no attempts at all it resolves without a value. */
  datatype Outcome = Resolved(value: int) | ResolvedEmpty | Rejected(error: int) | RejectedCancelled

  /** promise-queue-with-jittering.js:20-24: the wait before attempt k (from 0) is (k + 1) squared times the delay. */
  function TryDelays(tryCount: nat, delay: nat): (waits: seq<nat>)
    ensures |waits| == tryCount
  {
    seq(tryCount, k requires 0 <= k < tryCount => (k + 1) * (k + 1) * delay)
  }

  predicate CancelledBy(cancel: Option<int>, t: int) {
    cancel.Some? && cancel.value <= t
  }

  /** When attempt k starts, if all before it fail: after its wait, counted from the end of the one before. */
  function Begin(world: nat -> Attempt, waits: seq<nat>, now: int, k: nat): int
    requires k < |waits|
    decreases k, 1
  {
    Turn(world, waits, now, k) + waits[k] + world(k).late
  }

  /** When the queue turns to attempt k: at once, or when the one before has ended. */
  function Turn(world: nat -> Attempt, waits: seq<nat>, now: int, k: nat): int
    requires k <= |waits|
    decreases k, 0
  {
    if k == 0 then now else Begin(world, waits, now, k - 1) + world(k - 1).takes
  }

  ghost predicate Timely(world: nat -> Attempt, waits: seq<nat>, now: int, starts: seq<int>) {
    |starts| <= |waits| && forall k: nat :: k < |starts| ==> starts[k] == Begin(world, waits, now, k)
  }

  ghost predicate AllFail(world: nat -> Attempt, k: nat) {
    forall j: nat :: j < k ==> world(j).ending.Failure?
  }

  /** Attempt k is made: all before it failed, and the queue is not cancelled by the time it starts. */
  ghost predicate Made(world: nat -> Attempt, waits: seq<nat>, cancel: Option<int>, now: int, k: nat) {
    k < |waits| && !CancelledBy(cancel, Begin(world, waits, now, k)) && AllFail(world, k)
  }

  /** Exactly the attempts before m are made. */
  ghost predicate MadeBefore(world: nat -> Attempt, waits: seq<nat>, cancel: Option<int>, now: int, m: nat) {
    forall k: nat :: k < m <==> Made(world, waits, cancel, now, k)
  }

  /** How the queue settles after its first m attempts were made: the first success, else the last error when
      all were made, else the cancel error. */
  function Settled(world: nat -> Attempt, tryCount: nat, cancel: Option<int>, now: int, m: nat): Outcome {
    if m > 0 && world(m - 1).ending.Success? then Resolved(world(m - 1).ending.value)
    else if m > 0 && m == tryCount && world(m - 1).ending.Failure? then Rejected(world(m - 1).ending.error)
    else if tryCount == 0 && !CancelledBy(cancel, now) then ResolvedEmpty
    else RejectedCancelled
  }

  /** Runs the queue from time `now`: exactly the attempts that are due are made, at their times. */
  method Start(world: nat -> Attempt, tryCount: nat, delay: nat, cancel: Option<int>, now: int)
    returns (outcome: Outcome, starts: seq<int>)
    ensures MadeBefore(world, TryDelays(tryCount, delay), cancel, now, |starts|)
    ensures Timely(world, TryDelays(tryCount, delay), now, starts)
    ensures outcome == Settled(world, tryCount, cancel, now, |starts|)
  {
    var waits := TryDelays(tryCount, delay);
    if CancelledBy(cancel, now) {
      CancelStops(world, waits, cancel, now, 0, now);
      return RejectedCancelled, [];
    }
    outcome, starts := MakeAttempts(world, waits, cancel, now);
  }

  /** promise-queue-with-jittering.js:30-62: the attempts themselves. */
  method MakeAttempts(world: nat -> Attempt, waits: seq<nat>, cancel: Option<int>, now: int)
    returns (outcome: Outcome, starts: seq<int>)
    requires !CancelledBy(cancel, now)
    ensures MadeBefore(world, waits, cancel, now, |starts|) && Timely(world, waits, now, starts)
    ensures outcome == Settled(world, |waits|, cancel, now, |starts|)
  {
    starts := [];
    var clock := now;
    var lastError: Option<int> := None;
    for i := 0 to |waits|
      invariant AllFail(world, i) && clock == Turn(world, waits, now, i)
      invariant AllMade(world, waits, cancel, now, i)
      invariant |starts| == i && Timely(world, waits, now, starts)
      invariant lastError == if i == 0 then None else Some(world(i - 1).ending.error)
    {
      if CancelledBy(cancel, clock) {
        CancelStops(world, waits, cancel, now, i, clock);
        return RejectedCancelled, starts;
      }
      clock := clock + waits[i] + world(i).late;
      assert clock == Begin(world, waits, now, i);
      if CancelledBy(cancel, clock) {
        CancelStops(world, waits, cancel, now, i, clock);
        return RejectedCancelled, starts;
      }
      starts := starts + [clock];
      clock := clock + world(i).takes;
      assert Made(world, waits, cancel, now, i);
      match world(i).ending {
        case Success(v) =>
          LastMade(world, waits, cancel, now, i);
          return Resolved(v), starts;
        case CancelFailure =>
          LastMade(world, waits, cancel, now, i);
          return RejectedCancelled, starts;
        case Failure(e) => lastError := Some(e);
      }
    }
    assert MadeBefore(world, waits, cancel, now, |waits|);
    if lastError.Some? {
      return Rejected(lastError.value), starts;
    }
    outcome := ResolvedEmpty;
  }

  ghost predicate AllMade(world: nat -> Attempt, waits: seq<nat>, cancel: Option<int>, now: int, m: nat) {
    forall k: nat :: k < m ==> Made(world, waits, cancel, now, k)
  }

  /** An attempt that does not fail is the last one made. */
  lemma LastMade(world: nat -> Attempt, waits: seq<nat>, cancel: Option<int>, now: int, i: nat)
    requires AllMade(world, waits, cancel, now, i) && Made(world, waits, cancel, now, i)
    requires !world(i).ending.Failure?
    ensures MadeBefore(world, waits, cancel, now, i + 1)
  {
    forall k: nat | i < k ensures !Made(world, waits, cancel, now, k) {
      assert AllFail(world, k) ==> world(i).ending.Failure?;
    }
  }

  lemma {:induction false} BeginMonotone(world: nat -> Attempt, waits: seq<nat>, now: int, i: nat, k: nat)
    requires i <= k < |waits|
    ensures Begin(world, waits, now, i) <= Begin(world, waits, now, k)
  {
    if i < k {
      BeginMonotone(world, waits, now, i, k - 1);
    }
  }

  /** A queue cancelled by the time attempt i would start makes exactly the attempts before i. */
  lemma CancelStops(world: nat -> Attempt, waits: seq<nat>, cancel: Option<int>, now: int, i: nat, t: int)
    requires AllMade(world, waits, cancel, now, i)
    requires CancelledBy(cancel, t) && (i < |waits| ==> t <= Begin(world, waits, now, i))
    ensures MadeBefore(world, waits, cancel, now, i)
  {
    forall k: nat | i <= k < |waits| ensures !Made(world, waits, cancel, now, k) {
      BeginMonotone(world, waits, now, i, k);
    }
  }

  // ---- how long the waits add up to ----

  /** 1 + 4 + ... + k * k, six times over. */
  function SixSquares(k: nat): nat {
    k * (k + 1) * (2 * k + 1)
  }

  lemma NextSquare(k: nat, delay: nat)
    ensures delay * SixSquares(k) + 6 * ((k + 1) * (k + 1) * delay) == delay * SixSquares(k + 1)
  {
    assert SixSquares(k + 1) == SixSquares(k) + 6 * ((k + 1) * (k + 1));
    assert 6 * ((k + 1) * (k + 1) * delay) == delay * (6 * ((k + 1) * (k + 1)));
  }

  /** The k-th attempt (from 1) starts no earlier than delay * k(k+1)(2k+1)/6 after the start. */
  lemma {:induction false} BeginBound(world: nat -> Attempt, tryCount: nat, delay: nat, now: int, k: nat)
    requires 1 <= k <= tryCount
    ensures 6 * (Begin(world, TryDelays(tryCount, delay), now, k - 1) - now) >= delay * SixSquares(k)
  {
    NextSquare(k - 1, delay);
    if k > 1 {
      BeginBound(world, tryCount, delay, now, k - 1);
    }
  }

  /** When timers are exact and attempts fail at once, it starts exactly then. */
  lemma {:induction false} BeginExact(world: nat -> Attempt, tryCount: nat, delay: nat, now: int, k: nat)
    requires 1 <= k <= tryCount && forall j: nat :: world(j).late == world(j).takes == 0
    ensures 6 * (Begin(world, TryDelays(tryCount, delay), now, k - 1) - now) == delay * SixSquares(k)
  {
    NextSquare(k - 1, delay);
    if k > 1 {
      BeginExact(world, tryCount, delay, now, k - 1);
    }
  }

  // ---- what the queue settles to ----

  /** The attempt is the last one, and every one of them was made and failed. */
  ghost predicate AllMadeAndFailed(world: nat -> Attempt, waits: seq<nat>, cancel: Option<int>, now: int) {
    waits != [] && AllMade(world, waits, cancel, now, |waits|) && AllFail(world, |waits|)
  }

  /** The queue resolves with a value exactly when an attempt that is made succeeds with it; it rejects with an error
      exactly when all attempts are made and fail, the last one with that error; it resolves without a value exactly
      when there is nothing to attempt and it is not cancelled at the start; and it rejects as cancelled otherwise. */
  lemma SettledMeans(world: nat -> Attempt, waits: seq<nat>, cancel: Option<int>, now: int, m: nat, v: int)
    requires MadeBefore(world, waits, cancel, now, m)
    ensures var outcome := Settled(world, |waits|, cancel, now, m);
      && (outcome == Resolved(v) <==> exists k: nat :: Made(world, waits, cancel, now, k) && world(k).ending == Success(v))
      && (outcome == Rejected(v) <==> AllMadeAndFailed(world, waits, cancel, now) && world(|waits| - 1).ending == Failure(v))
      && (outcome == ResolvedEmpty <==> waits == [] && !CancelledBy(cancel, now))
  {
    if m > 0 {
      assert Made(world, waits, cancel, now, m - 1) && AllFail(world, m - 1);
    }
    forall k: nat | Made(world, waits, cancel, now, k) && world(k).ending.Success? ensures k == m - 1 {
      assert k < m;
    }
    if AllMadeAndFailed(world, waits, cancel, now) {
      assert Made(world, waits, cancel, now, |waits| - 1) && !Made(world, waits, cancel, now, |waits|);
      assert |waits| - 1 < m;
    }
    if m == |waits| && m > 0 && world(m - 1).ending.Failure? {
      forall j: nat | j < m ensures world(j).ending.Failure? {
        assert AllFail(world, m - 1);
      }
      forall k: nat | k < m ensures Made(world, waits, cancel, now, k) {}
    }
  }
}
