/** The waiting loops of crates/common/src/lockfile.rs. Times are milliseconds of a
    monotone clock; `sleep` lasts at least as long as asked. */
module LockFile {

  const RETRY_INTERVAL: nat := 100

  /** What `try_lock` gives: the lock, contention, or another error. */
  datatype Attempt = Taken | Busy | Broken

  datatype Acquired = Locked | AlreadyRunning | TimedOut | Failed

  /** The clock readings of successive rounds, each a sleep apart. */
  ghost predicate Paced(started: nat, now: nat -> nat) {
    && (forall k: nat :: started <= now(k))
    && (forall j: nat, k: nat | j < k :: now(j) + RETRY_INTERVAL * (k - j) <= now(k))
  }

  function RoundsFor(wait: nat): nat {
    (wait + RETRY_INTERVAL - 1) / RETRY_INTERVAL + 1
  }

  /** Round k passes without ending the wait. */
  predicate Continues(attempt: Attempt, running: bool, now: nat, deadline: nat) {
    attempt == Busy && !running && now < deadline
  }

  lemma DeadlinePasses(started: nat, now: nat -> nat, wait: nat, k: nat)
    requires Paced(started, now) && now(k) < started + wait
    ensures k + 1 < RoundsFor(wait)
  {
    assert started + RETRY_INTERVAL * k <= now(k) by {
      if k > 0 {
        assert now(0) + RETRY_INTERVAL * (k - 0) <= now(k);
      }
    }
  }

  /** `acquire_or_yield`: it ends in at most ceil(wait / 100 ms) + 1 attempts, asks the
      probe once per busy attempt, and its outcome is what the last round found. */
  method AcquireOrYield(opens: bool, wait: nat, started: nat, now: nat -> nat,
                        attempt: nat -> Attempt, running: nat -> bool)
    returns (r: Acquired, attempts: nat, probes: nat)
    requires Paced(started, now)
    ensures !opens ==> r == Failed && attempts == 0 && probes == 0
    ensures opens ==> 1 <= attempts <= (wait + 99) / 100 + 1
    ensures forall k: nat | k + 1 < attempts :: attempt(k) == Busy && !running(k) && now(k) < started + wait
    ensures opens ==>
              var last := attempts - 1;
              && (r == Locked <==> attempt(last) == Taken)
              && (r == Failed <==> attempt(last) == Broken)
              && (r == AlreadyRunning <==> attempt(last) == Busy && running(last))
              && (r == TimedOut <==> attempt(last) == Busy && !running(last) && started + wait <= now(last))
              && probes == if attempt(last) == Busy then attempts else attempts - 1
  {
    attempts, probes := 0, 0;
    if !opens {
      return Failed, 0, 0;
    }
    var deadline := started + wait;
    while true
      invariant attempts + 1 <= RoundsFor(wait)
      invariant probes == attempts
      invariant forall k: nat | k < attempts :: Continues(attempt(k), running(k), now(k), deadline)
      decreases RoundsFor(wait) - attempts
    {
      var k := attempts;
      attempts := attempts + 1;
      match attempt(k) {
        case Taken => return Locked, attempts, probes;
        case Broken => return Failed, attempts, probes;
        case Busy =>
      }
      probes := probes + 1;
      if running(k) {
        return AlreadyRunning, attempts, probes;
      }
      if now(k) >= deadline {
        return TimedOut, attempts, probes;
      }
      DeadlinePasses(started, now, wait, k);
    }
  }

  /** What one probe of a lock file meets. */
  datatype Probe = CannotOpen | Free | Held | LockError

  /** `is_released`: any failure to open counts as released. */
  predicate Released(p: Probe) {
    p == CannotOpen || p == Free
  }

  /** `wait_released`: true exactly when its last probe saw the lock released, within
      ceil(timeout / 100 ms) + 1 probes; false only once the deadline has passed. */
  method WaitReleased(timeout: nat, started: nat, now: nat -> nat, probe: nat -> Probe)
    returns (released: bool, probes: nat)
    requires Paced(started, now)
    ensures 1 <= probes <= (timeout + 99) / 100 + 1
    ensures released <==> probe(probes - 1) == CannotOpen || probe(probes - 1) == Free
    ensures !released ==> started + timeout <= now(probes - 1)
    ensures forall k: nat | k + 1 < probes ::
              (probe(k) == Held || probe(k) == LockError) && now(k) < started + timeout
  {
    var deadline := started + timeout;
    probes := 0;
    while true
      invariant probes + 1 <= RoundsFor(timeout)
      invariant forall k: nat | k < probes :: !Released(probe(k)) && now(k) < deadline
      decreases RoundsFor(timeout) - probes
    {
      var k := probes;
      probes := probes + 1;
      if Released(probe(k)) {
        return true, probes;
      }
      if now(k) >= deadline {
        return false, probes;
      }
      DeadlinePasses(started, now, timeout, k);
    }
  }
}
