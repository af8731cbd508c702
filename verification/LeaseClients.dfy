/** How many addresses a client holds: exactly when no client gets a second one. */
module LeaseClients {
  import opened Bytes
  import opened LeaseClock
  import opened LeaseTable
  import opened LeaseRuns

  /** No two slots hold the same client. */
  ghost predicate Injective(t: Table)
  {
    forall i: Slot, j: Slot | t[i].mac == t[j].mac != FREE :: i == j
  }

  /** A client that holds a slot asks for another one, which is free. */
  ghost predicate TakesSecond(t: Table, e: Event)
  {
    && e.msg.Request? && e.msg.mac != FREE
    && t[e.msg.slot].mac == FREE
    && exists j: Slot :: t[j].mac == e.msg.mac
  }

  /** A DISCOVER gives nobody a slot, and offers a client that holds one a slot it holds. */
  lemma {:induction false} DiscoverKeepsHolders(t: Table, client: Mac, c: Clock, i: Slot, mac: Mac)
    requires mac != FREE && OnDiscover(t, client, c).0[i].mac == mac
    ensures t[i].mac == mac
    ensures client == mac ==> OnDiscover(t, client, c).1.Offer? && t[OnDiscover(t, client, c).1.slot].mac == mac
  {
    DiscoverTouches(t, client, c);
  }

  lemma {:induction false} SecondIsTwo(t: Table, e: Event)
    requires TakesSecond(t, e)
    ensures !Injective(Step(t, e).0)
  {
    var j: Slot :| t[j].mac == e.msg.mac;
    var t' := Step(t, e).0;
    assert t'[j].mac == t'[e.msg.slot].mac == e.msg.mac && j != e.msg.slot;
  }

  lemma {:induction false} StepStaysInjective(t: Table, e: Event)
    requires Injective(t) && !TakesSecond(t, e)
    ensures Injective(Step(t, e).0)
  {
    var t' := Step(t, e).0;
    forall i: Slot, j: Slot | t'[i].mac == t'[j].mac != FREE
      ensures i == j
    {
      match e.msg {
        case Other =>
        case Request(_, _) =>
        case Discover(client) =>
          DiscoverKeepsHolders(t, client, e.clock, i, t'[i].mac);
          DiscoverKeepsHolders(t, client, e.clock, j, t'[i].mac);
      }
    }
  }

  /**
   From a run's first table on, no client ever holds two addresses exactly when no client that holds
   one asks for another that is free. The server itself does not look.
   */
  lemma {:induction false} OneAddressIff(ts: seq<Table>, es: seq<Event>)
    requires IsRun(ts, es) && Injective(ts[0])
    ensures (forall k: nat | k <= |es| :: Injective(ts[k]))
       <==> (forall k: nat | k < |es| :: !TakesSecond(ts[k], es[k]))
  {
    if forall k: nat | k < |es| :: !TakesSecond(ts[k], es[k]) {
      forall k: nat | k <= |es|
        ensures Injective(ts[k])
      {
        StaysInjective(ts, es, k);
      }
    } else {
      var k: nat :| k < |es| && TakesSecond(ts[k], es[k]);
      assert StepAt(ts, es, k);
      SecondIsTwo(ts[k], es[k]);
      assert !Injective(ts[k + 1]);
    }
  }

  lemma {:induction false} StaysInjective(ts: seq<Table>, es: seq<Event>, k: nat)
    requires IsRun(ts, es) && Injective(ts[0]) && k <= |es|
    requires forall n: nat | n < k :: !TakesSecond(ts[n], es[n])
    ensures Injective(ts[k])
    decreases k
  {
    if k > 0 {
      StaysInjective(ts, es, k - 1);
      assert StepAt(ts, es, k - 1);
      StepStaysInjective(ts[k - 1], es[k - 1]);
    }
  }

  /** The slot most recently offered to `mac` once event `e` has happened, `last` being the one before. */
  function NextOffer(t: Table, e: Event, mac: Mac, last: Option<Slot>): Option<Slot>
  {
    if e.msg == Discover(mac) && Step(t, e).1.Offer? then Some(Step(t, e).1.slot) else last
  }

  /** The slot most recently offered to `mac` before event `k`. */
  ghost function LastOffer(ts: seq<Table>, es: seq<Event>, k: nat, mac: Mac): Option<Slot>
    requires k <= |es| < |ts|
  {
    if k == 0 then None else NextOffer(ts[k - 1], es[k - 1], mac, LastOffer(ts, es, k - 1, mac))
  }

  /** If event `k` is a REQUEST by `mac`, it is for the slot `mac` was last offered. */
  ghost predicate Honest(ts: seq<Table>, es: seq<Event>, k: nat, mac: Mac)
    requires k < |es| < |ts|
  {
    forall i: Slot | es[k].msg == Request(mac, i) :: LastOffer(ts, es, k, mac) == Some(i)
  }

  /** Clients with a nonzero address ask only for the slot they were last offered. */
  ghost predicate Disciplined(ts: seq<Table>, es: seq<Event>)
    requires |es| < |ts|
  {
    forall k: nat, mac: Mac | k < |es| && mac != FREE :: Honest(ts, es, k, mac)
  }

  /** No slot but `last` holds the client. */
  ghost predicate HoldsAtMost(t: Table, mac: Mac, last: Option<Slot>)
  {
    forall i: Slot | t[i].mac == mac :: last == Some(i)
  }

  lemma {:induction false} StepHoldsAtMost(t: Table, e: Event, mac: Mac, last: Option<Slot>)
    requires mac != FREE && HoldsAtMost(t, mac, last)
    requires forall i: Slot | e.msg == Request(mac, i) :: last == Some(i)
    ensures HoldsAtMost(Step(t, e).0, mac, NextOffer(t, e, mac, last))
  {
    forall i: Slot | Step(t, e).0[i].mac == mac
      ensures NextOffer(t, e, mac, last) == Some(i)
    {
      match e.msg {
        case Other =>
        case Request(_, _) =>
        case Discover(client) => DiscoverKeepsHolders(t, client, e.clock, i, mac);
      }
    }
  }

  /** In a disciplined run a client holds at most the slot it was last offered. */
  lemma {:induction false} HeldIsLastOffered(ts: seq<Table>, es: seq<Event>, k: nat, mac: Mac)
    requires IsRun(ts, es) && ts[0] == INITIAL && Disciplined(ts, es)
    requires k <= |es| && mac != FREE
    ensures HoldsAtMost(ts[k], mac, LastOffer(ts, es, k, mac))
    decreases k
  {
    if k > 0 {
      assert StepAt(ts, es, k - 1);
      HeldIsLastOffered(ts, es, k - 1, mac);
      assert Honest(ts, es, k - 1, mac);
      StepHoldsAtMost(ts[k - 1], es[k - 1], mac, LastOffer(ts, es, k - 1, mac));
    }
  }

  /** A client that asks only for what it was last offered never asks for a second address. */
  lemma {:induction false} DisciplinedTakesNoSecond(ts: seq<Table>, es: seq<Event>, k: nat)
    requires IsRun(ts, es) && ts[0] == INITIAL && Disciplined(ts, es)
    requires k < |es|
    ensures !TakesSecond(ts[k], es[k])
  {
    if es[k].msg.Request? && es[k].msg.mac != FREE {
      HeldIsLastOffered(ts, es, k, es[k].msg.mac);
      assert Honest(ts, es, k, es[k].msg.mac);
    }
  }

  /** Hence in every state a disciplined run reaches, no client holds two addresses. */
  lemma {:induction false} OneAddressEach(ts: seq<Table>, es: seq<Event>, k: nat)
    requires IsRun(ts, es) && ts[0] == INITIAL && Disciplined(ts, es)
    requires k <= |es|
    ensures Injective(ts[k])
  {
    forall n: nat | n < |es|
      ensures !TakesSecond(ts[n], es[n])
    {
      DisciplinedTakesNoSecond(ts, es, n);
    }
    OneAddressIff(ts, es);
  }

  /** Such a client is given another address only when the lease of the one before has run out. */
  lemma {:induction false} SecondAddressWaits(ts: seq<Table>, es: seq<Event>, a: nat, b: nat, i: Slot, j: Slot,
                                             mac: Mac)
    requires IsRun(ts, es) && mac != FREE && i != j
    requires a < b && Acked(ts, es, a, i, mac) && Acked(ts, es, b, j, mac)
    requires Injective(ts[b]) && !TakesSecond(ts[b], es[b])
    ensures TimeOf(es[b]) > TimeOf(es[a]) + LEASE_MS
  {
    RunProtects(ts, es, a, b, i, mac);
    assert StepAt(ts, es, b);
    assert ts[b][i].mac == mac ==> ts[b][j].mac != mac && ts[b][j].mac != FREE;
  }

  /** Without the discipline it fails: any client may take any two slots of the empty table. */
  lemma {:induction false} TwoAddresses(mac: Mac, i: Slot, j: Slot, c: Clock)
    requires mac != FREE && i != j && Ordered(c)
    ensures var t1 := Step(INITIAL, Event(Request(mac, i), c)).0;
            var t2 := Step(t1, Event(Request(mac, j), c)).0;
            !Injective(t2) && t2[i].mac == t2[j].mac == mac
  {
    var t1 := Step(INITIAL, Event(Request(mac, i), c)).0;
    assert t1 == INITIAL[i := Lease(mac, StoredExpiry(c[0]))];
    assert t1[j].mac == FREE;
    var t2 := Step(t1, Event(Request(mac, j), c)).0;
    assert t2 == t1[j := Lease(mac, StoredExpiry(c[0]))];
    assert t2[i].mac == t2[j].mac == mac;
  }
}
