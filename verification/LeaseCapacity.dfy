/** How many clients the server serves: eight, never fewer, if each asks only for what it was offered. */
module LeaseCapacity {
  import opened Bytes
  import opened LeaseClock
  import opened LeaseTable
  import opened LeaseRuns
  import opened LeaseClients

  /** The clients in the first `n` slots. */
  function ClientsIn(t: Table, n: nat): set<Mac>
    requires n <= MAX_IP
  {
    if n == 0 then {} else ClientsIn(t, n - 1) + {t[n - 1].mac}
  }

  lemma {:induction false} ClientInSlot(t: Table, n: nat, mac: Mac) returns (i: Slot)
    requires n <= MAX_IP && mac in ClientsIn(t, n)
    ensures i < n && t[i].mac == mac
  {
    if mac == t[n - 1].mac {
      i := n - 1;
    } else {
      i := ClientInSlot(t, n - 1, mac);
    }
  }

  /** With no client in two slots, taken slots have as many clients as there are slots. */
  lemma {:induction false} DistinctClients(t: Table, n: nat)
    requires n <= MAX_IP && Injective(t)
    requires forall i: Slot | i < n :: t[i].mac != FREE
    ensures |ClientsIn(t, n)| == n
  {
    if n > 0 {
      DistinctClients(t, n - 1);
      if t[n - 1].mac in ClientsIn(t, n - 1) {
        var i := ClientInSlot(t, n - 1, t[n - 1].mac);
        assert false;
      }
    }
  }

  /** All nonzero clients that ever REQUEST before event `k` are among these. */
  ghost predicate Among(es: seq<Event>, k: nat, clients: set<Mac>)
    requires k <= |es|
  {
    forall n: nat, i: Slot, client: Mac | n < k && client != FREE && Requests(es, n, i, client) :: client in clients
  }

  /** In a run from the initial table, holders have asked. */
  lemma {:induction false} HoldersAreAmong(ts: seq<Table>, es: seq<Event>, k: nat, clients: set<Mac>, client: Mac)
    requires IsRun(ts, es) && ts[0] == INITIAL && k <= |es| && Among(es, k, clients)
    requires client != FREE && client in ClientsIn(ts[k], MAX_IP)
    ensures client in clients
  {
    var i := ClientInSlot(ts[k], MAX_IP, client);
    LeaseComesFromLastAck(ts, es, k, i);
    assert Requests(es, LastAck(ts, es, k, i).value, i, client);
  }

  lemma {:induction false} Subset(a: set<Mac>, b: set<Mac>)
    requires a <= b
    ensures |a| <= |b|
  {
    assert |b - a| == |b| - |a|;
  }

  /** If all eight slots are taken by others and no client is in two of them, there are nine clients. */
  lemma {:induction false} AllTakenIsNine(t: Table, mac: Mac, c: Clock, clients: set<Mac>)
    requires Injective(t) && forall i: Slot :: TakenFor(t, mac, c, i)
    requires mac in clients && forall client | client in ClientsIn(t, MAX_IP) && client != FREE :: client in clients
    ensures |clients| > 8
  {
    forall i: Slot
      ensures t[i].mac != FREE && t[i].mac != mac
    {
      assert TakenFor(t, mac, c, i);
    }
    DistinctClients(t, MAX_IP);
    var held := ClientsIn(t, MAX_IP);
    forall client | client in held
      ensures client in clients - {mac}
    {
      var i := ClientInSlot(t, MAX_IP, client);
    }
    Subset(held, clients - {mac});
  }

  /**
   Where no client holds two addresses, a client that is one of at most eight that ever ask is
   offered an address every time it discovers, whatever the others have done and however long ago.
   */
  lemma {:induction false} RoomForEight(ts: seq<Table>, es: seq<Event>, k: nat, mac: Mac, clients: set<Mac>)
    requires IsRun(ts, es) && ts[0] == INITIAL
    requires k < |es| && es[k].msg == Discover(mac) && Injective(ts[k])
    requires Among(es, k, clients) && mac in clients && |clients| <= 8
    ensures Step(ts[k], es[k]).1.Offer?
  {
    SilentIffAllTaken(ts[k], mac, es[k].clock);
    forall client | client in ClientsIn(ts[k], MAX_IP) && client != FREE
      ensures client in clients
    {
      HoldersAreAmong(ts, es, k, clients, client);
    }
    if forall i: Slot :: TakenFor(ts[k], mac, es[k].clock, i) {
      AllTakenIsNine(ts[k], mac, es[k].clock, clients);
    }
  }

  /** In particular where clients ask only for what they were last offered. */
  lemma {:induction false} EightAreServed(ts: seq<Table>, es: seq<Event>, k: nat, mac: Mac, clients: set<Mac>)
    requires IsRun(ts, es) && ts[0] == INITIAL && Disciplined(ts, es)
    requires k < |es| && es[k].msg == Discover(mac)
    requires Among(es, k, clients) && mac in clients && |clients| <= 8
    ensures Step(ts[k], es[k]).1.Offer?
  {
    OneAddressEach(ts, es, k);
    RoomForEight(ts, es, k, mac, clients);
  }

  // ---- A ninth client ----

  /** The first `n` of the clients hold the first slots, in order, by leases stamped from `since` to `now`. */
  ghost predicate Filled(t: Table, clients: seq<Mac>, n: nat, since: nat, now: nat)
    requires n <= MAX_IP <= |clients|
  {
    forall i: Slot :: if i < n then Stamped(t[i], clients[i], since, now) else t[i].mac == FREE
  }

  ghost predicate Stamped(l: Lease, mac: Mac, since: nat, now: nat)
  {
    l.mac == mac && exists u: nat :: since <= u <= now && l.expiry == StoredExpiry(u)
  }

  /** Nine nonzero clients, all different. */
  ghost predicate Nine(clients: seq<Mac>)
  {
    && |clients| == 9
    && (forall i | 0 <= i < 9 :: clients[i] != FREE)
    && forall i, j | 0 <= i < j < 9 :: clients[i] != clients[j]
  }

  /** Within a lease time, the slots filled are taken for everybody else and the others are not. */
  lemma {:induction false} FilledIsTaken(t: Table, clients: seq<Mac>, n: nat, since: nat, now: nat, c: Clock)
    requires Nine(clients) && n <= MAX_IP && Filled(t, clients, n, since, now)
    requires Ordered(c) && now <= c[0] <= c[MAX_IP - 1] <= since + LEASE_MS
    ensures forall i: Slot :: TakenFor(t, clients[n], c, i) <==> i < n
  {
    forall i: Slot
      ensures TakenFor(t, clients[n], c, i) <==> i < n
    {
      if i < n && Expired(t[i].expiry, c[i]) {
        assert Stamped(t[i], clients[i], since, now);
        var u: nat :| since <= u <= now && t[i].expiry == StoredExpiry(u);
        NeverCutShort(u, c[i]);
      }
    }
  }

  lemma {:induction false} NextIsOffered(t: Table, clients: seq<Mac>, n: nat, since: nat, now: nat, c: Clock)
    requires Nine(clients) && n < MAX_IP && Filled(t, clients, n, since, now)
    requires Ordered(c) && now <= c[0] <= c[MAX_IP - 1] <= since + LEASE_MS
    ensures OnDiscover(t, clients[n], c) == (t, Offer(n))
  {
    FilledIsTaken(t, clients, n, since, now, c);
    assert RightOffer(t, clients[n], c, n);
    OfferIsRight(t, clients[n], c, n);
    forall i: Slot
      ensures OnDiscover(t, clients[n], c).0[i] == t[i]
    {
      DiscoverLeaves(t, clients[n], c, i);
      assert !TakenFor(t, clients[n], c, i) ==> t[i].(mac := FREE) == t[i];
    }
    assert OnDiscover(t, clients[n], c).0 == t;
  }

  lemma {:induction false} NextTakes(t: Table, clients: seq<Mac>, n: nat, since: nat, now: nat, at: nat, later: nat)
    requires Nine(clients) && n < MAX_IP && Filled(t, clients, n, since, now) && since <= now <= at <= later
    ensures var (t', out) := OnRequest(t, clients[n], n, at);
            out == Ack(n) && Filled(t', clients, n + 1, since, later)
  {
    var t' := OnRequest(t, clients[n], n, at).0;
    forall i: Slot | i < n + 1
      ensures Stamped(t'[i], clients[i], since, later)
    {
      assert i < n ==> Stamped(t[i], clients[i], since, now);
    }
  }

  /** The client `n` discovers, and then requests slot `n`. */
  ghost predicate Pair(es: seq<Event>, clients: seq<Mac>, n: Slot)
    requires 2 * n + 1 < |es| && n < |clients|
  {
    es[2 * n].msg == Discover(clients[n]) && es[2 * n + 1].msg == Request(clients[n], n)
  }

  /** One after the other, each client discovers and requests a slot; last the ninth discovers. */
  ghost predicate Queue(es: seq<Event>, clients: seq<Mac>)
    requires |clients| == 9
  {
    && |es| == 17
    && (forall n: Slot :: Pair(es, clients, n))
    && es[16].msg == Discover(clients[8])
  }

  /** Every reading of a run lies between its first and its last. */
  lemma {:induction false} InTime(ts: seq<Table>, es: seq<Event>, k: nat)
    requires IsRun(ts, es) && k < |es|
    ensures Ordered(es[k].clock)
    ensures TimeOf(es[0]) <= TimeOf(es[k])
    ensures es[k].clock[MAX_IP - 1] <= es[|es| - 1].clock[MAX_IP - 1]
    decreases |es| - k
  {
    assert StepAt(ts, es, k);
    TimeAdvances(ts, es, 0, k);
    if k < |es| - 1 {
      assert StepAt(ts, es, k + 1);
      InTime(ts, es, k + 1);
    }
  }

  /** The next client discovers at event `d`, and requests at the one behind it. */
  lemma {:induction false} NextIsServed(ts: seq<Table>, es: seq<Event>, clients: seq<Mac>, n: Slot, d: nat)
    requires IsRun(ts, es) && d + 2 < |es| && Nine(clients)
    requires es[|es| - 1].clock[MAX_IP - 1] <= TimeOf(es[0]) + LEASE_MS
    requires es[d].msg == Discover(clients[n]) && es[d + 1].msg == Request(clients[n], n)
    requires Filled(ts[d], clients, n, TimeOf(es[0]), TimeOf(es[d]))
    ensures Step(ts[d], es[d]).1 == Offer(n) && Acked(ts, es, d + 1, n, clients[n])
    ensures Filled(ts[d + 2], clients, n + 1, TimeOf(es[0]), TimeOf(es[d + 2]))
  {
    InTime(ts, es, d);
    NextIsOffered(ts[d], clients, n, TimeOf(es[0]), TimeOf(es[d]), es[d].clock);
    assert StepAt(ts, es, d) && StepAt(ts, es, d + 1);
    TimeAdvances(ts, es, d, d + 1);
    TimeAdvances(ts, es, d + 1, d + 2);
    NextTakes(ts[d], clients, n, TimeOf(es[0]), TimeOf(es[d]), TimeOf(es[d + 1]), TimeOf(es[d + 2]));
  }

  lemma {:induction false} QueueFills(ts: seq<Table>, es: seq<Event>, clients: seq<Mac>, n: nat)
    requires IsRun(ts, es) && ts[0] == INITIAL && Nine(clients) && Queue(es, clients)
    requires es[2 * MAX_IP].clock[MAX_IP - 1] <= TimeOf(es[0]) + LEASE_MS
    requires n <= MAX_IP
    ensures Filled(ts[2 * n], clients, n, TimeOf(es[0]), TimeOf(es[2 * n]))
  {
    if n > 0 {
      var d := 2 * (n - 1);
      QueueFills(ts, es, clients, n - 1);
      assert Pair(es, clients, n - 1);
      NextIsServed(ts, es, clients, n - 1, d);
      assert d + 2 == 2 * n;
    }
  }

  /**
   Eight is the most: of nine different clients that come one after the other within a lease time,
   eight are each offered and given an address of their own, and the ninth gets no answer.
   */
  lemma {:induction false} NinthClientWaits(ts: seq<Table>, es: seq<Event>, clients: seq<Mac>)
    requires IsRun(ts, es) && ts[0] == INITIAL && Nine(clients) && Queue(es, clients)
    requires es[16].clock[7] <= TimeOf(es[0]) + LEASE_MS
    ensures forall n: nat | n < 8 :: Step(ts[2 * n], es[2 * n]).1 == Offer(n) && Acked(ts, es, 2 * n + 1, n, clients[n])
    ensures Step(ts[16], es[16]).1 == Silent
  {
    forall n: Slot
      ensures Step(ts[2 * n], es[2 * n]).1 == Offer(n) && Acked(ts, es, 2 * n + 1, n, clients[n])
    {
      QueueFills(ts, es, clients, n);
      assert Pair(es, clients, n);
      NextIsServed(ts, es, clients, n, 2 * n);
    }
    NinthIsSilent(ts, es, clients);
  }

  lemma {:induction false} NinthIsSilent(ts: seq<Table>, es: seq<Event>, clients: seq<Mac>)
    requires IsRun(ts, es) && ts[0] == INITIAL && Nine(clients) && Queue(es, clients)
    requires es[2 * MAX_IP].clock[MAX_IP - 1] <= TimeOf(es[0]) + LEASE_MS
    ensures Step(ts[2 * MAX_IP], es[2 * MAX_IP]).1 == Silent
  {
    var last := 2 * MAX_IP;
    var t, c := ts[last], es[last].clock;
    QueueFills(ts, es, clients, MAX_IP);
    InTime(ts, es, last);
    FilledIsTaken(t, clients, MAX_IP, TimeOf(es[0]), TimeOf(es[last]), c);
    SilentIffAllTaken(t, clients[MAX_IP], c);
  }
}
