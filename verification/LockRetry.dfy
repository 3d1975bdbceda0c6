/** How long one lock key is tried for, and what a failed try leaves behind. */
module LockRetry {
  const SECOND := 1_000_000_000

  /** What one round comes to: the compare-and-create grants the key or finds it taken; it reports an
      error, and may have been applied all the same; the round is cancelled before it; or the key is
      created and its keep-alive fails, and then the key is deleted and the lease revoked, and either
      call may fail. */
  datatype Try =
    | Granted
    | Taken
    | Failed(applied: bool)
    | Cancelled
    | KeepAliveFails(deleted: bool, revoked: bool)

  datatype Outcome = Acquired | TimedOut | Aborted

  /** What is left in etcd of this attempt: the lock key, and the lease granted for it. */
  datatype Remains = Remains(key: bool, lease: bool)

  /** Revoking the lease takes the key along. */
  function RemainsOf(t: Try): Remains {
    match t
    case Granted => Remains(true, true)
    case Taken => Remains(false, true)
    case Failed(applied) => Remains(applied, true)
    case Cancelled => Remains(false, true)
    case KeepAliveFails(deleted, revoked) => Remains(!deleted && !revoked, !revoked)
  }

  /** The configured seconds, as a duration: the fraction is cut off before the unit is applied. */
  function Deadline(lockTimeout: real): (d: nat)
    requires lockTimeout >= 0.0
    ensures d % SECOND == 0
    ensures d as real <= lockTimeout * SECOND as real < (d + SECOND) as real
    ensures forall elapsed: nat :: elapsed < d <==> elapsed / SECOND < lockTimeout.Floor
  {
    WholeSeconds(lockTimeout.Floor);
    lockTimeout.Floor * SECOND
  }

  lemma WholeSeconds(n: nat)
    ensures forall elapsed: nat :: elapsed < n * SECOND <==> elapsed / SECOND < n
  {
  }

  /** Attempt i is the last one made: it does not find the key taken, the ones before it did, and each
      of them started before the whole seconds of the timeout were over; `elapsed` is in nanoseconds. */
  predicate IsLast(lockTimeout: real, elapsed: seq<nat>, tries: seq<Try>, i: nat)
    requires i < |tries| == |elapsed|
  {
    && (forall j :: 0 <= j <= i ==> elapsed[j] / 1_000_000_000 < lockTimeout.Floor)
    && (forall j :: 0 <= j < i ==> tries[j] == Taken)
    && tries[i] != Taken
  }

  /** Some attempt is granted. */
  predicate GetsIn(lockTimeout: real, elapsed: seq<nat>, tries: seq<Try>)
    requires |tries| == |elapsed|
  {
    exists i :: 0 <= i < |tries| && tries[i] == Granted && IsLast(lockTimeout, elapsed, tries, i)
  }

  /** Tries to create one lock key under a fresh lease until it is granted, fails or time is up;
      `elapsed` is the time since the start at each round, and after the last round listed time is up.
      A time-out revokes the lease; an error leaves it to expire, and with it the key if the create was
      applied; a failed keep-alive leaves what its clean-up could not remove. */
  method AcquireLock(lockTimeout: real, elapsed: seq<nat>, tries: seq<Try>, revokes: bool)
    returns (outcome: Outcome, left: Remains)
    requires lockTimeout >= 0.0 && |tries| == |elapsed|
    ensures outcome == Acquired <==> GetsIn(lockTimeout, elapsed, tries)
    ensures outcome == TimedOut <==> forall i :: 0 <= i < |tries| ==> !IsLast(lockTimeout, elapsed, tries, i)
    ensures outcome == Acquired ==> left.key && left.lease
    ensures outcome == TimedOut ==> !left.key && (left.lease <==> !revokes)
    ensures forall i :: 0 <= i < |tries| && IsLast(lockTimeout, elapsed, tries, i) ==>
              && (tries[i] == Cancelled ==> !left.key && left.lease)
              && (tries[i].Failed? ==> left.lease && (left.key <==> tries[i].applied))
              && (tries[i].KeepAliveFails? ==>
                    && (left.lease <==> !tries[i].revoked)
                    && (left.key <==> !tries[i].deleted && !tries[i].revoked))
    ensures left.key && outcome != Acquired ==> left.lease
  {
    var deadline := Deadline(lockTimeout);
    var i := 0;
    while i < |tries| && elapsed[i] < deadline
      invariant 0 <= i <= |tries|
      invariant forall j :: 0 <= j < i ==> elapsed[j] / SECOND < lockTimeout.Floor && tries[j] == Taken
    {
      if tries[i] != Taken {
        assert IsLast(lockTimeout, elapsed, tries, i);
        OneLast(lockTimeout, elapsed, tries, i);
        return if tries[i] == Granted then Acquired else Aborted, RemainsOf(tries[i]);
      }
      i := i + 1;
    }
    return TimedOut, Remains(false, !revokes);
  }

  lemma OneLast(lockTimeout: real, elapsed: seq<nat>, tries: seq<Try>, i: nat)
    requires i < |tries| == |elapsed| && IsLast(lockTimeout, elapsed, tries, i)
    ensures forall j :: 0 <= j < |tries| && IsLast(lockTimeout, elapsed, tries, j) ==> j == i
  {
  }

  /** A key that is free from the first moment is acquired exactly when the timeout is a second or
      more: a timeout below one second makes no attempt at all. */
  lemma FreeKeyExactly(lockTimeout: real, elapsed: seq<nat>, tries: seq<Try>)
    requires lockTimeout >= 0.0 && |tries| == |elapsed| > 0
    requires elapsed[0] == 0 && tries[0] == Granted
    ensures GetsIn(lockTimeout, elapsed, tries) <==> lockTimeout >= 1.0
  {
    if lockTimeout >= 1.0 {
      assert IsLast(lockTimeout, elapsed, tries, 0);
    }
  }
}
