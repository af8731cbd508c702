/**
 What the lease table guarantees over whole runs: any number of clients, messages in any order,
 and an unbounded clock of which the server sees only the wrapping 32 bits.
 */
module LeaseRuns {
  import opened Bytes
  import opened LeaseClock
  import opened LeaseTable

  /** Event `k` takes table `k` to the next; the clock does not go back within it or since the event before. */
  ghost predicate StepAt(ts: seq<Table>, es: seq<Event>, k: nat)
    requires k < |es| < |ts|
  {
    && ts[k + 1] == Step(ts[k], es[k]).0
    && Ordered(es[k].clock)
    && (k > 0 ==> es[k - 1].clock[MAX_IP - 1] <= es[k].clock[0])
  }

  /** `ts[k]` is the table before event `k`, for every event. */
  ghost predicate IsRun(ts: seq<Table>, es: seq<Event>)
  {
    |ts| == |es| + 1 && forall k: nat | k < |es| :: StepAt(ts, es, k)
  }

  /** Event `k` is a REQUEST by `mac` for slot `i`. */
  ghost predicate Requests(es: seq<Event>, k: nat, i: Slot, mac: Mac)
  {
    k < |es| && es[k].msg == Request(mac, i)
  }

  /** Event `k` gives slot `i` to `mac`: it is the client's REQUEST and is acknowledged. */
  ghost predicate Acked(ts: seq<Table>, es: seq<Event>, k: nat, i: Slot, mac: Mac)
    requires |es| < |ts|
  {
    Requests(es, k, i, mac) && Step(ts[k], es[k]).1 == Ack(i)
  }

  /** The reading an acknowledgement is stamped with. */
  function TimeOf(e: Event): nat
  {
    e.clock[0]
  }

  // ---- Exclusive leases ----

  /** Slot `i` is `mac`'s, stamped no earlier than `since`; or the lease granted at `since` is over. */
  ghost predicate Protected(t: Table, i: Slot, mac: Mac, since: nat, now: nat)
  {
    || now > since + LEASE_MS
    || (t[i].mac == mac && exists u: nat :: since <= u <= now && t[i].expiry == StoredExpiry(u))
  }

  /** No message of any kind ends the protection of an acknowledged lease. */
  lemma {:induction false} StepProtects(t: Table, e: Event, i: Slot, mac: Mac, since: nat, now: nat)
    requires mac != FREE
    requires Ordered(e.clock) && since <= now <= e.clock[0]
    requires Protected(t, i, mac, since, now)
    ensures Protected(Step(t, e).0, i, mac, since, e.clock[MAX_IP - 1])
  {
    if now <= since + LEASE_MS {
      var u: nat :| since <= u <= now && t[i].expiry == StoredExpiry(u);
      match e.msg {
        case Other =>
        case Request(_, _) =>
          assert Step(t, e).0[i].expiry == StoredExpiry(u) || Step(t, e).0[i].expiry == StoredExpiry(e.clock[0]);
        case Discover(client) =>
          DiscoverTouches(t, client, e.clock);
          if Step(t, e).0[i] != t[i] {
            NeverCutShort(u, e.clock[i]);
          }
      }
    }
  }

  lemma {:induction false} AckProtects(t: Table, e: Event, i: Slot, mac: Mac)
    requires Ordered(e.clock) && e.msg == Request(mac, i) && Step(t, e).1 == Ack(i)
    ensures Protected(Step(t, e).0, i, mac, TimeOf(e), e.clock[MAX_IP - 1])
  {
    assert Step(t, e).0[i] == Lease(mac, StoredExpiry(TimeOf(e)));
  }

  lemma {:induction false} RunProtects(ts: seq<Table>, es: seq<Event>, a: nat, k: nat, i: Slot, mac: Mac)
    requires IsRun(ts, es) && mac != FREE
    requires a < k <= |es| && Acked(ts, es, a, i, mac)
    ensures Protected(ts[k], i, mac, TimeOf(es[a]), es[k - 1].clock[MAX_IP - 1])
  {
    assert StepAt(ts, es, k - 1);
    if k == a + 1 {
      AckProtects(ts[a], es[a], i, mac);
    } else {
      RunProtects(ts, es, a, k - 1, i, mac);
      StepProtects(ts[k - 1], es[k - 1], i, mac, TimeOf(es[a]), es[k - 2].clock[MAX_IP - 1]);
    }
  }

  /** In every run, whatever it starts from, once `mac` is given a slot nobody else is for a whole lease. */
  ghost predicate Exclusive(mac: Mac)
  {
    forall ts: seq<Table>, es: seq<Event>, a: nat, b: nat, i: Slot, other: Mac ::
      IsRun(ts, es) && a < b && Acked(ts, es, a, i, mac) && Acked(ts, es, b, i, other) && other != mac
      ==> TimeOf(es[b]) > TimeOf(es[a]) + LEASE_MS
  }

  lemma {:induction false} LeaseIsExclusive(ts: seq<Table>, es: seq<Event>, a: nat, b: nat, i: Slot,
                                           mac: Mac, other: Mac)
    requires IsRun(ts, es) && mac != FREE && other != mac
    requires a < b && Acked(ts, es, a, i, mac) && Acked(ts, es, b, i, other)
    ensures TimeOf(es[b]) > TimeOf(es[a]) + LEASE_MS
  {
    RunProtects(ts, es, a, b, i, mac);
    assert StepAt(ts, es, b);
  }

  /** The all-zero address gets no exclusion: the slot it was given still reads as free. */
  lemma {:induction false} ZeroMacIsNotExclusive()
    ensures !Exclusive(FREE)
  {
    var c: Clock := seq(MAX_IP, _ => 0);
    var other: Mac := [2, 0, 0, 0, 0, 1];
    var es := [Event(Request(FREE, 0), c), Event(Request(other, 0), c)];
    var t1 := Step(INITIAL, es[0]).0;
    var ts := [INITIAL, t1, Step(t1, es[1]).0];
    assert IsRun(ts, es);
    assert Acked(ts, es, 0, 0, FREE) && Acked(ts, es, 1, 0, other);
  }

  /** Leases are exclusive for exactly the clients whose address is not all zero. */
  lemma {:induction false} ExclusiveIff(mac: Mac)
    ensures Exclusive(mac) <==> mac != [0, 0, 0, 0, 0, 0]
  {
    if mac == FREE {
      ZeroMacIsNotExclusive();
    } else {
      forall ts: seq<Table>, es: seq<Event>, a: nat, b: nat, i: Slot, other: Mac |
        IsRun(ts, es) && a < b && Acked(ts, es, a, i, mac) && Acked(ts, es, b, i, other) && other != mac
        ensures TimeOf(es[b]) > TimeOf(es[a]) + LEASE_MS
      {
        LeaseIsExclusive(ts, es, a, b, i, mac, other);
      }
    }
  }

  // ---- Renewals ----

  /** Event `j` is an earlier REQUEST of the same lease, at most one lease time before event `k`. */
  ghost predicate Renews(es: seq<Event>, j: nat, k: nat, i: Slot, mac: Mac)
    requires k < |es|
  {
    j < k && Requests(es, j, i, mac) && TimeOf(es[k]) <= TimeOf(es[j]) + LEASE_MS
  }

  /**
   A client acknowledged at event `a` that keeps asking at gaps of at most the lease time is
   acknowledged every time, whatever everybody else sends in between.
   */
  lemma {:induction false} RenewalsNeverFail(ts: seq<Table>, es: seq<Event>, a: nat, k: nat, i: Slot, mac: Mac)
    requires IsRun(ts, es) && mac != FREE
    requires Acked(ts, es, a, i, mac)
    requires forall n | a < n <= k && Requests(es, n, i, mac) :: exists j :: a <= j && Renews(es, j, n, i, mac)
    requires a <= k && Requests(es, k, i, mac)
    ensures Acked(ts, es, k, i, mac)
    decreases k
  {
    if a < k {
      var j :| a <= j && Renews(es, j, k, i, mac);
      RenewalsNeverFail(ts, es, a, j, i, mac);
      RunProtects(ts, es, j, k, i, mac);
      assert StepAt(ts, es, k);
    }
  }

  // ---- Time ----

  /** The clock does not go back over a run. */
  lemma {:induction false} TimeAdvances(ts: seq<Table>, es: seq<Event>, a: nat, b: nat)
    requires IsRun(ts, es) && a <= b < |es|
    ensures TimeOf(es[a]) <= TimeOf(es[b])
    ensures forall i: Slot :: TimeOf(es[a]) <= es[b].clock[i]
    decreases b
  {
    assert StepAt(ts, es, b);
    if a < b {
      TimeAdvances(ts, es, a, b - 1);
      assert StepAt(ts, es, b - 1);
    }
  }

  // ---- Leases and the acknowledgements they come from ----

  /** The event that last acknowledged slot `i` before event `k`. */
  ghost function LastAck(ts: seq<Table>, es: seq<Event>, k: nat, i: Slot): (a: Option<nat>)
    requires k <= |es| < |ts|
    ensures a.Some? ==> a.value < k && Step(ts[a.value], es[a.value]).1 == Ack(i)
  {
    if k == 0 then None
    else if Step(ts[k - 1], es[k - 1]).1 == Ack(i) then Some(k - 1)
    else LastAck(ts, es, k - 1, i)
  }

  /** No acknowledgement of the slot comes after it. */
  lemma {:induction false} LastAckIsLast(ts: seq<Table>, es: seq<Event>, k: nat, i: Slot, n: nat)
    requires n < k <= |es| < |ts|
    requires LastAck(ts, es, k, i).Some? ==> LastAck(ts, es, k, i).value < n
    ensures Step(ts[n], es[n]).1 != Ack(i)
    decreases k
  {
    if n < k - 1 {
      LastAckIsLast(ts, es, k - 1, i, n);
    }
  }

  /** A slot's lease is what event `a` granted: to that client, with the expiry of that time. */
  ghost predicate GrantedBy(l: Lease, i: Slot, e: Event)
  {
    e.msg == Request(l.mac, i) && l.expiry == StoredExpiry(TimeOf(e))
  }

  /** What one event does to a taken slot: it grants it anew, or leaves it alone. */
  lemma {:induction false} TakenAfterStep(t: Table, e: Event, i: Slot)
    requires Step(t, e).0[i].mac != FREE
    ensures if Step(t, e).1 == Ack(i) then GrantedBy(Step(t, e).0[i], i, e) else Step(t, e).0[i] == t[i]
  {
    if e.msg.Discover? {
      DiscoverTouches(t, e.msg.mac, e.clock);
    }
  }

  /** In a run from the initial table every taken slot's lease is its last acknowledgement's. */
  lemma {:induction false} LeaseComesFromLastAck(ts: seq<Table>, es: seq<Event>, k: nat, i: Slot)
    requires IsRun(ts, es) && ts[0] == INITIAL && k <= |es|
    requires ts[k][i].mac != FREE
    ensures LastAck(ts, es, k, i).Some?
    ensures GrantedBy(ts[k][i], i, es[LastAck(ts, es, k, i).value])
    decreases k
  {
    if k > 0 {
      assert StepAt(ts, es, k - 1);
      TakenAfterStep(ts[k - 1], es[k - 1], i);
      if Step(ts[k - 1], es[k - 1]).1 != Ack(i) {
        LeaseComesFromLastAck(ts, es, k - 1, i);
      }
    }
  }

  /** At event `k` slot `i` is held by somebody else, whose last acknowledgement has not lapsed by real time. */
  ghost predicate StillGranted(ts: seq<Table>, es: seq<Event>, k: nat, i: Slot, mac: Mac)
    requires k < |es| < |ts|
  {
    && ts[k][i].mac != FREE && ts[k][i].mac != mac
    && LastAck(ts, es, k, i).Some?
    && !Lapsed(TimeOf(es[LastAck(ts, es, k, i).value]), es[k].clock[i])
  }

  /** What the table and the wrapping clock say of a slot is what the acknowledgements and real time say. */
  lemma {:induction false} TakenByHistory(ts: seq<Table>, es: seq<Event>, k: nat, i: Slot, mac: Mac)
    requires IsRun(ts, es) && ts[0] == INITIAL && k < |es|
    ensures TakenFor(ts[k], mac, es[k].clock, i) <==> StillGranted(ts, es, k, i, mac)
  {
    if ts[k][i].mac != FREE {
      LeaseComesFromLastAck(ts, es, k, i);
      var a := LastAck(ts, es, k, i).value;
      TimeAdvances(ts, es, a, k);
      ExpiryExactly(TimeOf(es[a]), es[k].clock[i]);
    }
  }

  /** So a DISCOVER goes unanswered exactly when all eight slots are still granted to others. */
  lemma {:induction false} SilentByHistory(ts: seq<Table>, es: seq<Event>, k: nat, mac: Mac)
    requires IsRun(ts, es) && ts[0] == INITIAL
    requires k < |es| && es[k].msg == Discover(mac)
    ensures Step(ts[k], es[k]).1 == Silent <==> forall i: Slot :: StillGranted(ts, es, k, i, mac)
  {
    SilentIffAllTaken(ts[k], mac, es[k].clock);
    forall i: Slot
      ensures TakenFor(ts[k], mac, es[k].clock, i) <==> StillGranted(ts, es, k, i, mac)
    {
      TakenByHistory(ts, es, k, i, mac);
    }
  }

  /** The real time at which the term of a lease granted by event `e` ends, rounded up to its block. */
  function TermEnd(e: Event): nat
  {
    TimeOf(e) + LEASE_MS + Rounding(TimeOf(e))
  }

  /** An acknowledged slot keeps that lease while its term runs and nobody is acknowledged it anew. */
  lemma {:induction false} TermHolds(ts: seq<Table>, es: seq<Event>, k: nat, i: Slot)
    requires IsRun(ts, es) && 0 < k <= |es|
    requires LastAck(ts, es, k, i).Some?
    requires var e := es[LastAck(ts, es, k, i).value]; e.msg.mac != FREE && es[k - 1].clock[MAX_IP - 1] <= TermEnd(e)
    ensures GrantedBy(ts[k][i], i, es[LastAck(ts, es, k, i).value])
    decreases k
  {
    assert StepAt(ts, es, k - 1);
    var a := LastAck(ts, es, k, i).value;
    if a < k - 1 {
      TimeAdvances(ts, es, a, k - 1);
      TermHolds(ts, es, k - 1, i);
      TermSurvivesStep(ts[k - 1], es[k - 1], i, es[a]);
    }
  }

  /** Before its term ends, only an acknowledgement changes a lease. */
  lemma {:induction false} TermSurvivesStep(t: Table, e: Event, i: Slot, granted: Event)
    requires Ordered(e.clock) && Step(t, e).1 != Ack(i)
    requires t[i].mac != FREE && GrantedBy(t[i], i, granted)
    requires TimeOf(granted) <= e.clock[i] <= e.clock[MAX_IP - 1] <= TermEnd(granted)
    ensures Step(t, e).0[i] == t[i]
  {
    if e.msg.Discover? {
      DiscoverTouches(t, e.msg.mac, e.clock);
      if Step(t, e).0[i] != t[i] {
        NeverCutShort(TimeOf(granted), e.clock[i]);
      }
    }
  }

  /** By acknowledgements and real time alone: the slot was last given to another client, whose term has not ended. */
  ghost predicate InTerm(ts: seq<Table>, es: seq<Event>, k: nat, i: Slot, mac: Mac)
    requires k < |es| < |ts|
  {
    && LastAck(ts, es, k, i).Some?
    && var e := es[LastAck(ts, es, k, i).value];
      && e.msg.mac != FREE && e.msg.mac != mac
      && es[k].clock[i] <= TermEnd(e)
  }

  /** The slot was never acknowledged, or its last term ended at most 2^31 ms ago: the wrapping clock can tell. */
  ghost predicate Recent(ts: seq<Table>, es: seq<Event>, k: nat, i: Slot)
    requires k < |es| < |ts|
  {
    LastAck(ts, es, k, i).Some? ==> es[k].clock[i] <= TermEnd(es[LastAck(ts, es, k, i).value]) + HALF
  }

  lemma {:induction false} GrantedIffInTerm(ts: seq<Table>, es: seq<Event>, k: nat, i: Slot, mac: Mac)
    requires IsRun(ts, es) && ts[0] == INITIAL && k < |es|
    requires Recent(ts, es, k, i)
    ensures StillGranted(ts, es, k, i, mac) <==> InTerm(ts, es, k, i, mac)
  {
    if LastAck(ts, es, k, i).Some? {
      var a := LastAck(ts, es, k, i).value;
      assert StepAt(ts, es, k);
      TimeAdvances(ts, es, a, k);
      LapsedInWindow(TimeOf(es[a]), es[k].clock[i]);
      if ts[k][i].mac != FREE {
        LeaseComesFromLastAck(ts, es, k, i);
      }
      if InTerm(ts, es, k, i, mac) {
        TermHolds(ts, es, k, i);
      }
    }
  }

  /**
   So, unless some slot was left alone for 2^31 ms past its term, the answer to a DISCOVER is given by
   the acknowledgements and real time: none exactly when all eight slots are within another client's term.
   */
  lemma {:induction false} SilentIffAllInTerm(ts: seq<Table>, es: seq<Event>, k: nat, mac: Mac)
    requires IsRun(ts, es) && ts[0] == INITIAL
    requires k < |es| && es[k].msg == Discover(mac)
    requires forall i: Slot :: Recent(ts, es, k, i)
    ensures Step(ts[k], es[k]).1 == Silent <==> forall i: Slot :: InTerm(ts, es, k, i, mac)
  {
    SilentByHistory(ts, es, k, mac);
    forall i: Slot
      ensures StillGranted(ts, es, k, i, mac) <==> InTerm(ts, es, k, i, mac)
    {
      GrantedIffInTerm(ts, es, k, i, mac);
    }
  }

  /** With every other slot taken, a newcomer gets the last client's slot exactly when it tests as expired. */
  lemma {:induction false} OnlySlotLeft(t: Table, i: Slot, newcomer: Mac, c: Clock)
    requires t[i].mac != FREE && newcomer != t[i].mac
    requires forall j: Slot | j != i :: TakenFor(t, newcomer, c, j)
    ensures OnDiscover(t, newcomer, c)
         == if Expired(t[i].expiry, c[i]) then (Freed(t, i), Offer(i)) else (t, Silent)
  {
    var held := FirstHeld(t, newcomer, 0);
    var usable := FirstUsable(t, c, 0);
    assert held < MAX_IP ==> held == i || TakenFor(t, newcomer, c, held);
    assert usable < MAX_IP ==> usable == i || TakenFor(t, newcomer, c, usable);
    if Expired(t[i].expiry, c[i]) {
      assert Usable(t, c, i);
    }
  }

  /**
   Seven slots being granted to others, a newcomer's DISCOVER in a run from the initial table gets
   the eighth exactly when its last acknowledgement has lapsed: never during its term, always in the
   2^31 ms after its rounded end, and then again never for as long. Left alone, an abandoned lease
   can keep its address from others.
   */
  lemma {:induction false} LapsedLeaseIsReused(ts: seq<Table>, es: seq<Event>, k: nat, i: Slot, newcomer: Mac)
    requires IsRun(ts, es) && ts[0] == INITIAL
    requires k < |es| && es[k].msg == Discover(newcomer)
    requires ts[k][i].mac != FREE && newcomer != ts[k][i].mac
    requires forall j: Slot | j != i :: StillGranted(ts, es, k, j, newcomer)
    ensures LastAck(ts, es, k, i).Some?
    ensures Step(ts[k], es[k])
         == if Lapsed(TimeOf(es[LastAck(ts, es, k, i).value]), es[k].clock[i])
            then (Freed(ts[k], i), Offer(i)) else (ts[k], Silent)
  {
    LeaseComesFromLastAck(ts, es, k, i);
    TakenByHistory(ts, es, k, i, newcomer);
    forall j: Slot | j != i
      ensures TakenFor(ts[k], newcomer, es[k].clock, j)
    {
      TakenByHistory(ts, es, k, j, newcomer);
    }
    OnlySlotLeft(ts[k], i, newcomer, es[k].clock);
  }
}
