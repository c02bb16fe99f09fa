/** Idle stamps of the timeout pool: nanoseconds of the second within the minute, 0 meaning "never used". */
module IdleClock {
  const SECOND: int := 1_000_000_000

  /** The stamp taken at wall-clock time `t` (nanoseconds): the second of the minute, as a duration. */
  function Stamp(t: nat): int {
    (t / SECOND) % 60 * SECOND
  }

  /** The test that evicts an idle item. */
  predicate Expired(now: nat, stamp: int, timeout: int) {
    timeout > 0 && stamp != 0 && Stamp(now) - stamp > timeout
  }

  lemma StampRange(t: nat)
    ensures 0 <= Stamp(t) <= 59 * SECOND && Stamp(t) % SECOND == 0
  {}

  /** No eviction loses a whole second to the minute boundary: the seconds seen passing have really passed. */
  lemma SeenSecondsPassed(t1: nat, t2: nat)
    requires t1 <= t2
    ensures Stamp(t2) - Stamp(t1) <= (t2 / SECOND - t1 / SECOND) * SECOND
  {}

  /** An item evicted at `t2` that was stamped at `t1` has really been idle longer than the timeout. */
  ghost predicate Sound(timeout: int) {
    forall t1: nat, t2: nat :: t1 <= t2 && Expired(t2, Stamp(t1), timeout) ==> t2 - t1 > timeout
  }

  /** On a whole-second clock eviction is sound for every timeout. */
  lemma SoundOnWholeSeconds(t1: nat, t2: nat, timeout: int)
    requires t1 <= t2 && t1 % SECOND == 0 && t2 % SECOND == 0
    requires Expired(t2, Stamp(t1), timeout)
    ensures t2 - t1 > timeout
  {
    SeenSecondsPassed(t1, t2);
  }

  /** On any clock eviction is sound exactly for timeouts of whole seconds and for those that never evict. */
  lemma SoundIff(timeout: int)
    ensures Sound(timeout) <==> timeout <= 0 || timeout % SECOND == 0 || timeout >= 58 * SECOND
  {
    if timeout > 0 && timeout % SECOND != 0 && timeout < 58 * SECOND {
      // Stamped just before second 2 begins, looked at when q + 2 seconds have begun.
      var q := timeout / SECOND;
      var t1: nat, t2: nat := 2 * SECOND - 1, (q + 2) * SECOND;
      assert t1 / SECOND == 1 && t2 / SECOND == q + 2 < 60;
      assert Stamp(t1) == SECOND && Stamp(t2) == (q + 2) * SECOND;
      assert timeout == q * SECOND + timeout % SECOND;
      assert Expired(t2, Stamp(t1), timeout) && t2 - t1 == q * SECOND + 1;
    } else {
      forall t1: nat, t2: nat | t1 <= t2 && Expired(t2, Stamp(t1), timeout)
        ensures t2 - t1 > timeout
      {
        StampRange(t1);
        StampRange(t2);
        WholeSecondsAreSound(t1, t2, timeout);
      }
    }
  }

  lemma WholeSecondsAreSound(t1: nat, t2: nat, timeout: int)
    requires t1 <= t2 && Expired(t2, Stamp(t1), timeout)
    requires timeout % SECOND == 0 || timeout >= 58 * SECOND
    ensures t2 - t1 > timeout
  {
    StampRange(t1);
    StampRange(t2);
    SeenSecondsPassed(t1, t2);
    var d := t2 / SECOND - t1 / SECOND;
    var n := timeout / SECOND;
    assert timeout == n * SECOND + timeout % SECOND;
    if timeout % SECOND == 0 {
      assert d * SECOND > n * SECOND;
      assert d >= n + 1;
      assert t2 - t1 > (d - 1) * SECOND;
    } else {
      NothingExpiresAbove58s(t2, t1, timeout);
    }
  }

  lemma NothingExpiresAbove58s(now: nat, t1: nat, timeout: int)
    requires timeout >= 58 * SECOND
    ensures !Expired(now, Stamp(t1), timeout)
  {}

  /** Some item can be evicted at some time exactly when the timeout is positive and below 58 seconds. */
  lemma EvictsIff(timeout: int)
    ensures (exists now: nat, t1: nat :: Expired(now, Stamp(t1), timeout)) <==> 0 < timeout < 58 * SECOND
  {
    if 0 < timeout < 58 * SECOND {
      var now: nat, t1: nat := 59 * SECOND, SECOND;
      assert Stamp(now) == 59 * SECOND && Stamp(t1) == SECOND;
      assert Expired(now, Stamp(t1), timeout);
    }
    if now: nat, t1: nat :| Expired(now, Stamp(t1), timeout) && timeout >= 58 * SECOND {
      NothingExpiresAbove58s(now, t1, timeout);
    }
  }

  /** The timeout every connection pool is built with. */
  const CONNECTION_IDLE_TIMEOUT: int := 61 * SECOND

  lemma ConnectionsAreNeverEvicted(now: nat, t1: nat)
    ensures !Expired(now, Stamp(t1), CONNECTION_IDLE_TIMEOUT)
  {}

  /** Exactly when an item stamped at time `t1`, in second `a`, is evicted at `t2`, `d` whole seconds later: its stamp is
      not the zero of "never used", the minute has not turned, and the seconds of the minute exceed the timeout. */
  lemma EvictedIff(t1: nat, t2: nat, timeout: int)
    requires timeout > 0 && t1 <= t2
    ensures var a, d := t1 / SECOND, t2 / SECOND - t1 / SECOND;
      Expired(t2, Stamp(t1), timeout) <==> a % 60 != 0 && a % 60 + d % 60 < 60 && d % 60 * SECOND > timeout
  {
    var a, d := t1 / SECOND, t2 / SECOND - t1 / SECOND;
    SecondsAdd(a, d);
    assert t2 / SECOND == a + d;
    assert Stamp(t1) == a % 60 * SECOND && Stamp(t2) == (a + d) % 60 * SECOND;
  }

  lemma SecondsAdd(a: nat, d: nat)
    ensures (a + d) % 60 == a % 60 + d % 60 - if a % 60 + d % 60 < 60 then 0 else 60
  {}
}
