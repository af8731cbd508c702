/**
 The lease clock of the DHCP server: expiry times kept in 16 bits and compared
 through a signed 32-bit difference, against a millisecond counter that wraps.

 The model's time is an unbounded `nat`; the server only ever sees `Tick` of it.
 */
module LeaseClock {
  import opened Bytes

  /** DEFAULT_LEASE_TIME_S, in seconds. */
  const LEASE_TIME_S: uint32 := 24 * 60 * 60

  /** The same, in the clock's milliseconds. */
  const LEASE_MS: nat := LEASE_TIME_S * 1000

  const WRAP: nat := 0x1_0000_0000
  const HALF: nat := 0x8000_0000

  /** What the 32-bit millisecond counter shows at time `t`. */
  function Tick(t: nat): uint32
  {
    t % WRAP
  }

  /** The expiry field written by an acknowledgement at time `t`. */
  function StoredExpiry(t: nat): uint16
  {
    (Tick(t) + LEASE_MS) % WRAP / 0x1_0000
  }

  /** The test the DISCOVER loop makes: a signed 32-bit difference below zero. */
  predicate Expired(expiry: uint16, t: nat)
  {
    (expiry * 0x1_0000 + 0xffff - Tick(t)) % WRAP >= HALF
  }

  /** The milliseconds from the end of the lease to the end of its 65,536 ms block. */
  function Rounding(t: nat): nat
  {
    0xffff - (t + LEASE_MS) % 0x1_0000
  }

  /**
   Whether a lease granted at `t` has lapsed at `now`, by the wrapping clock: in the first 2^31 ms
   after its rounded end, and again in every second half wrap from there.
   */
  predicate Lapsed(t: nat, now: nat)
  {
    (now - t - LEASE_MS - Rounding(t) - 1) % WRAP < HALF
  }

  /** In the window that ends 2^31 ms past the rounded deadline, lapsed means past that deadline. */
  lemma {:induction false} LapsedInWindow(t: nat, now: nat)
    requires t <= now <= t + LEASE_MS + Rounding(t) + HALF
    ensures Lapsed(t, now) <==> now > t + LEASE_MS + Rounding(t)
  {
  }

  /** Two integers a multiple of the wrap apart have the same remainder. */
  lemma {:induction false} SameRemainder(a: int, b: int, k: int)
    requires a == b + k * WRAP
    ensures a % WRAP == b % WRAP
  {
    var q, r := b / WRAP, b % WRAP;
    assert a == (q + k) * WRAP + r;
  }

  /** The stored field, widened as the test widens it, is the real deadline up to whole wraps. */
  lemma {:induction false} StoredDeadline(t: nat) returns (k: int)
    ensures StoredExpiry(t) * 0x1_0000 + 0xffff == t + LEASE_MS + Rounding(t) - k * WRAP
  {
    var sum := t + LEASE_MS;
    var wrapped := (Tick(t) + LEASE_MS) % WRAP;
    k := t / WRAP + (Tick(t) + LEASE_MS) / WRAP;
    assert sum == wrapped + k * WRAP;
    SameBlock(sum, wrapped, k);
  }

  lemma {:induction false} RemainderIs(x: int, q: int, r: int)
    requires x == q * 0x1_0000 + r && 0 <= r < 0x1_0000
    ensures x % 0x1_0000 == r
  {
    var q' := x / 0x1_0000;
    assert x == q' * 0x1_0000 + x % 0x1_0000;
    assert -0x1_0000 < (q - q') * 0x1_0000 < 0x1_0000;
    assert q == q';
  }

  /** The place within a 65,536 ms block is not changed by whole wraps. */
  lemma {:induction false} SameBlock(a: int, b: int, k: int)
    requires a == b + k * WRAP
    ensures a % 0x1_0000 == b % 0x1_0000
  {
    RemainderIs(a, b / 0x1_0000 + k * 0x1_0000, b % 0x1_0000);
  }

  /** The upper half of the wrap holds the complements of the lower half. */
  lemma {:induction false} UpperHalf(d: int)
    ensures d % WRAP >= HALF <==> (-d - 1) % WRAP < HALF
  {
    SameRemainder(-d - 1, WRAP - 1 - d % WRAP, -(d / WRAP) - 1);
  }

  /** For every grant and every later time, however many wraps: exactly when the test says "expired". */
  lemma {:induction false} ExpiryExactly(t: nat, now: nat)
    requires t <= now
    ensures Expired(StoredExpiry(t), now) <==> Lapsed(t, now)
  {
    var k := StoredDeadline(t);
    var q := now / WRAP;
    var d := t + LEASE_MS + Rounding(t) - now;
    SameRemainder(StoredExpiry(t) * 0x1_0000 + 0xffff - Tick(now), d, q - k);
    UpperHalf(d);
    assert -d - 1 == now - t - LEASE_MS - Rounding(t) - 1;
  }

  /** The same in milliseconds: `now` is in the first half of a clock wrap past the rounded end of the lease. */
  lemma {:induction false} ExpiryInMilliseconds(t: nat, now: nat)
    requires t <= now
    ensures var end := t + 86_400_000 + 65_535 - (t + 86_400_000) % 65_536;
            Expired(StoredExpiry(t), now) <==> (now - end - 1) % 4_294_967_296 < 2_147_483_648
  {
    ExpiryExactly(t, now);
    assert now - t - LEASE_MS - Rounding(t) - 1 == now - (t + 86_400_000 + 65_535 - (t + 86_400_000) % 65_536) - 1;
  }

  /**
   Inside the window the test is exact: expired means that more than the lease, rounded up
   to its block, has elapsed. The window ends 2^31 ms after the rounded deadline.
   */
  lemma {:induction false} ExpiryWindow(t: nat, elapsed: nat)
    requires elapsed <= LEASE_MS + Rounding(t) + HALF
    ensures Expired(StoredExpiry(t), t + elapsed) <==> elapsed > LEASE_MS + Rounding(t)
    ensures 0 <= Rounding(t) <= 0xffff
  {
    ExpiryExactly(t, t + elapsed);
  }

  /** Whatever the elapsed time, even after many wraps, a lease is never cut short. */
  lemma {:induction false} NeverCutShort(t: nat, now: nat)
    requires t <= now
    requires Expired(StoredExpiry(t), now)
    ensures now > t + LEASE_MS + Rounding(t)
  {
    ExpiryExactly(t, now);
  }

  /**
   The other direction fails beyond the window: the first millisecond past it a lease that
   ran out long ago reads as live again, whenever it was granted.
   */
  lemma {:induction false} StaleLeaseReadsLive(t: nat)
    ensures Expired(StoredExpiry(t), t + LEASE_MS + Rounding(t) + HALF)
    ensures !Expired(StoredExpiry(t), t + LEASE_MS + Rounding(t) + HALF + 1)
  {
    ExpiryExactly(t, t + LEASE_MS + Rounding(t) + HALF);
    ExpiryExactly(t, t + LEASE_MS + Rounding(t) + HALF + 1);
  }
}
