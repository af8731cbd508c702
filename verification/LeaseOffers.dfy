/** What an offer is worth: over whole runs, exactly when the client that takes it up is acknowledged. */
module LeaseOffers {
  import opened Bytes
  import opened LeaseClock
  import opened LeaseTable
  import opened LeaseRuns

  /** Event `k` is a DISCOVER by `mac` that is offered slot `i`. */
  ghost predicate Offered(ts: seq<Table>, es: seq<Event>, k: nat, i: Slot, mac: Mac)
    requires |es| < |ts|
  {
    k < |es| && es[k].msg == Discover(mac) && Step(ts[k], es[k]).1 == Offer(i)
  }

  /** Event `n` gives slot `i` to somebody who is neither `mac` nor the all-zero client. */
  ghost predicate GivenToRival(ts: seq<Table>, es: seq<Event>, n: nat, i: Slot, mac: Mac)
    requires |es| < |ts|
  {
    exists other: Mac :: Acked(ts, es, n, i, other) && other != mac && other != FREE
  }

  /** Strictly between events `a` and `b` slot `i` is given to nobody but `mac` and the all-zero client. */
  ghost predicate Unrivalled(ts: seq<Table>, es: seq<Event>, a: nat, b: nat, i: Slot, mac: Mac)
    requires b <= |es| < |ts|
  {
    forall n: nat | a < n < b :: !GivenToRival(ts, es, n, i, mac)
  }

  /** Event `d` is a DISCOVER whose loop clears slot `i`. */
  ghost predicate ClearedAt(ts: seq<Table>, es: seq<Event>, d: nat, i: Slot)
    requires d < |es| < |ts|
  {
    es[d].msg.Discover? && Clears(ts[d], es[d].msg.mac, es[d].clock, i)
  }

  /** Event `n` gave the slot to a rival, and no DISCOVER has cleared it between then and event `b`. */
  ghost predicate RivalKeeps(ts: seq<Table>, es: seq<Event>, n: nat, b: nat, i: Slot, mac: Mac)
    requires b <= |es| < |ts|
  {
    n < b && GivenToRival(ts, es, n, i, mac) && forall d: nat | n < d < b :: !ClearedAt(ts, es, d, i)
  }

  /** But for an acknowledgement of the slot, a clearing DISCOVER frees it and any other event keeps its client. */
  lemma {:induction false} StepClears(t: Table, e: Event, i: Slot)
    requires Step(t, e).1 != Ack(i)
    ensures Step(t, e).0[i].mac
         == if e.msg.Discover? && Clears(t, e.msg.mac, e.clock, i) then FREE else t[i].mac
  {
    if e.msg.Discover? {
      DiscoverLeaves(t, e.msg.mac, e.clock, i);
    }
  }

  lemma {:induction false} RivalKeepsOn(ts: seq<Table>, es: seq<Event>, n: nat, k: nat, i: Slot, mac: Mac)
    requires n <= k < |es| < |ts|
    requires GivenToRival(ts, es, n, i, mac)
    requires n < k ==> RivalKeeps(ts, es, n, k, i, mac) && !ClearedAt(ts, es, k, i)
    ensures RivalKeeps(ts, es, n, k + 1, i, mac)
  {
  }

  /** An acknowledgement that is no rival's leaves the slot the client's or free. */
  lemma {:induction false} AckOpens(ts: seq<Table>, es: seq<Event>, k: nat, i: Slot, mac: Mac)
    requires k < |es| < |ts| && Step(ts[k], es[k]).1 == Ack(i)
    requires !GivenToRival(ts, es, k, i, mac)
    ensures Step(ts[k], es[k]).0[i].mac == mac || Step(ts[k], es[k]).0[i].mac == FREE
  {
    assert es[k].msg.Request?;
    assert Acked(ts, es, k, i, es[k].msg.mac);
  }

  /** The slot is the client's or free, or a rival that was given it after event `a` keeps it. */
  ghost predicate OpenOrKept(ts: seq<Table>, es: seq<Event>, a: nat, b: nat, i: Slot, mac: Mac)
    requires b <= |es| < |ts|
  {
    || ts[b][i].mac == mac || ts[b][i].mac == FREE
    || exists n: nat | a < n < b :: RivalKeeps(ts, es, n, b, i, mac)
  }

  lemma {:induction false} OpensOrKeeps(ts: seq<Table>, es: seq<Event>, a: nat, k: nat, i: Slot, mac: Mac)
    requires IsRun(ts, es) && a < k < |es|
    requires OpenOrKept(ts, es, a, k, i, mac)
    ensures OpenOrKept(ts, es, a, k + 1, i, mac)
  {
    assert StepAt(ts, es, k);
    if Step(ts[k], es[k]).1 == Ack(i) {
      if GivenToRival(ts, es, k, i, mac) {
        RivalKeepsOn(ts, es, k, k, i, mac);
      } else {
        AckOpens(ts, es, k, i, mac);
      }
    } else {
      StepClears(ts[k], es[k], i);
      if ts[k][i].mac != mac && ts[k][i].mac != FREE && !ClearedAt(ts, es, k, i) {
        var n: nat :| a < n < k && RivalKeeps(ts, es, n, k, i, mac);
        RivalKeepsOn(ts, es, n, k, i, mac);
      }
    }
  }

  /** An offer leaves the slot the client's or free. */
  lemma {:induction false} OfferOpens(ts: seq<Table>, es: seq<Event>, a: nat, i: Slot, mac: Mac)
    requires IsRun(ts, es) && Offered(ts, es, a, i, mac)
    ensures OpenOrKept(ts, es, a, a + 1, i, mac)
  {
    assert StepAt(ts, es, a);
    DiscoverTouches(ts[a], mac, es[a].clock);
  }

  lemma {:induction false} StaysOpenOrKept(ts: seq<Table>, es: seq<Event>, a: nat, k: nat, b: nat, i: Slot, mac: Mac)
    requires IsRun(ts, es) && a < k <= b <= |es|
    requires OpenOrKept(ts, es, a, k, i, mac)
    ensures OpenOrKept(ts, es, a, b, i, mac)
    decreases b - k
  {
    if k < b {
      OpensOrKeeps(ts, es, a, k, i, mac);
      StaysOpenOrKept(ts, es, a, k + 1, b, i, mac);
    }
  }

  /** So it is at every event after an offer. */
  lemma {:induction false} OfferIsOpenOrKept(ts: seq<Table>, es: seq<Event>, a: nat, b: nat, i: Slot, mac: Mac)
    requires IsRun(ts, es)
    requires a < b <= |es| && Offered(ts, es, a, i, mac)
    ensures OpenOrKept(ts, es, a, b, i, mac)
  {
    OfferOpens(ts, es, a, i, mac);
    StaysOpenOrKept(ts, es, a, a + 1, b, i, mac);
  }

  /** A rival that keeps the slot is still in it. */
  lemma {:induction false} KeptByRival(ts: seq<Table>, es: seq<Event>, n: nat, b: nat, i: Slot, mac: Mac)
    requires IsRun(ts, es) && b <= |es|
    requires RivalKeeps(ts, es, n, b, i, mac)
    ensures ts[b][i].mac != mac && ts[b][i].mac != FREE
    decreases b
  {
    var k := b - 1;
    assert StepAt(ts, es, k);
    if n < k {
      KeptByRival(ts, es, n, k, i, mac);
      if Step(ts[k], es[k]).1 != Ack(i) {
        StepClears(ts[k], es[k], i);
        assert !ClearedAt(ts, es, k, i);
      }
    }
  }

  /** After an offer the slot stays the client's or free until it is given to a rival. */
  lemma {:induction false} OfferStands(ts: seq<Table>, es: seq<Event>, a: nat, b: nat, i: Slot, mac: Mac)
    requires IsRun(ts, es)
    requires a < b <= |es| && Offered(ts, es, a, i, mac) && Unrivalled(ts, es, a, b, i, mac)
    ensures ts[b][i].mac == mac || ts[b][i].mac == FREE
  {
    OfferIsOpenOrKept(ts, es, a, b, i, mac);
  }

  /** So the offer can be taken up, however long the client waits. */
  lemma {:induction false} OfferIsRedeemable(ts: seq<Table>, es: seq<Event>, a: nat, b: nat, i: Slot, mac: Mac)
    requires IsRun(ts, es)
    requires a < b < |es| && Offered(ts, es, a, i, mac) && Unrivalled(ts, es, a, b, i, mac)
    requires Requests(es, b, i, mac)
    ensures Acked(ts, es, b, i, mac)
  {
    OfferStands(ts, es, a, b, i, mac);
  }

  /**
   After any wait, an offer is honoured exactly when every rival that was given the slot in between
   has since been cleared out of it. Rivals that asked and were refused do no harm, nor does the
   all-zero client.
   */
  lemma {:induction false} OfferIsHonouredIff(ts: seq<Table>, es: seq<Event>, a: nat, b: nat, i: Slot, mac: Mac)
    requires IsRun(ts, es)
    requires a < b < |es| && Offered(ts, es, a, i, mac) && Requests(es, b, i, mac)
    ensures Acked(ts, es, b, i, mac) <==> forall n: nat | a < n < b :: !RivalKeeps(ts, es, n, b, i, mac)
  {
    OfferIsOpenOrKept(ts, es, a, b, i, mac);
    if n: nat :| a < n < b && RivalKeeps(ts, es, n, b, i, mac) {
      KeptByRival(ts, es, n, b, i, mac);
    }
  }

  /** A rival that was given the slot keeps it for a lease time. */
  lemma {:induction false} RivalStays(ts: seq<Table>, es: seq<Event>, n: nat, b: nat, i: Slot, mac: Mac)
    requires IsRun(ts, es) && n < b < |es|
    requires GivenToRival(ts, es, n, i, mac)
    requires TimeOf(es[b]) <= TimeOf(es[n]) + LEASE_MS
    ensures RivalKeeps(ts, es, n, b, i, mac)
    decreases b
  {
    var k := b - 1;
    if n < k {
      TimeAdvances(ts, es, k, b);
      RivalStays(ts, es, n, k, i, mac);
      NotClearedInTerm(ts, es, n, b, i, mac);
    }
    RivalKeepsOn(ts, es, n, k, i, mac);
  }

  lemma {:induction false} NotClearedInTerm(ts: seq<Table>, es: seq<Event>, n: nat, b: nat, i: Slot, mac: Mac)
    requires IsRun(ts, es) && n < b - 1 < b < |es|
    requires GivenToRival(ts, es, n, i, mac)
    requires TimeOf(es[b]) <= TimeOf(es[n]) + LEASE_MS
    ensures !ClearedAt(ts, es, b - 1, i)
  {
    var other: Mac :| Acked(ts, es, n, i, other) && other != mac && other != FREE;
    RunProtects(ts, es, n, b, i, other);
    assert StepAt(ts, es, b - 1) && StepAt(ts, es, b);
    if ClearedAt(ts, es, b - 1, i) {
      DiscoverLeaves(ts[b - 1], es[b - 1].msg.mac, es[b - 1].clock, i);
    }
  }

  /** Taken up within a lease time, then, it is honoured exactly when the slot was given to no rival in between. */
  lemma {:induction false} OfferIsHonouredInTime(ts: seq<Table>, es: seq<Event>, a: nat, b: nat, i: Slot, mac: Mac)
    requires IsRun(ts, es)
    requires a < b < |es| && Offered(ts, es, a, i, mac) && Requests(es, b, i, mac)
    requires TimeOf(es[b]) <= TimeOf(es[a]) + LEASE_MS
    ensures Acked(ts, es, b, i, mac) <==> Unrivalled(ts, es, a, b, i, mac)
  {
    OfferIsHonouredIff(ts, es, a, b, i, mac);
    if n: nat :| a < n < b && GivenToRival(ts, es, n, i, mac) {
      TimeAdvances(ts, es, a, n);
      RivalStays(ts, es, n, b, i, mac);
    }
  }

  /**
   An offer reserves nothing: whatever the table, the slot just offered to a client that does not
   hold it goes to the first other client that asks, and then the offer's client is not answered.
   */
  lemma {:induction false} OfferIsNoReservation(t: Table, c: Clock, i: Slot, mac: Mac, rival: Mac, now: nat, later: nat)
    requires mac != FREE && rival != FREE && mac != rival
    requires OnDiscover(t, mac, c).1 == Offer(i)
    ensures var t1 := OnDiscover(t, mac, c).0;
            var (t2, out) := OnRequest(t1, rival, i, now);
            && (out == Ack(i) <==> t1[i].mac != mac)
            && (OnRequest(t2, mac, i, later).1 == Silent <==> t1[i].mac != mac)
  {
    DiscoverTouches(t, mac, c);
  }

  /** For instance, two clients one after the other are offered slot 0 of the empty table. */
  lemma {:induction false} BothOfferedTheSame(first: Mac, second: Mac, c: Clock)
    requires first != FREE && second != FREE && first != second && Ordered(c)
    ensures var d1, d2 := Event(Discover(first), c), Event(Discover(second), c);
            var r2, r1 := Event(Request(second, 0), c), Event(Request(first, 0), c);
            && Step(INITIAL, d1) == (INITIAL, Offer(0))
            && Step(INITIAL, d2) == (INITIAL, Offer(0))
            && Step(INITIAL, r2).1 == Ack(0)
            && Step(Step(INITIAL, r2).0, r1).1 == Silent
  {
    assert Freed(INITIAL, 0) == INITIAL;
    assert FirstHeld(INITIAL, first, 0) == MAX_IP && FirstHeld(INITIAL, second, 0) == MAX_IP;
    assert Usable(INITIAL, c, 0);
  }
}
