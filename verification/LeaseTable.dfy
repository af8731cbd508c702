/**
 The DHCP server's lease table as a transition system: what each message does to the eight
 leases and what it is answered.
 */
module LeaseTable {
  import opened Bytes
  import opened LeaseClock

  /** DHCPS_MAX_IP. */
  const MAX_IP: nat := 8

  /** MAC_LEN octets. */
  type Mac = m: seq<byte> | |m| == 6 witness [0, 0, 0, 0, 0, 0]

  /** The all-zero address marks a free lease. */
  const FREE: Mac := [0, 0, 0, 0, 0, 0]

  datatype Lease = Lease(mac: Mac, expiry: uint16)

  type Table = t: seq<Lease> | |t| == MAX_IP witness seq(MAX_IP, _ => Lease(FREE, 0))

  type Slot = i: nat | i < MAX_IP

  /** The part of a datagram that the lease table reacts to. */
  datatype Message = Discover(mac: Mac) | Request(mac: Mac, slot: Slot) | Other

  /** A non-decreasing clock reading for each turn of the DISCOVER loop; a REQUEST takes the first. */
  ghost predicate Ordered(c: seq<nat>)
  {
    |c| == MAX_IP && forall i, j | 0 <= i <= j < |c| :: c[i] <= c[j]
  }

  type Clock = c: seq<nat> | |c| == MAX_IP witness seq(MAX_IP, _ => 0)

  datatype Event = Event(msg: Message, clock: Clock)

  datatype Outcome = Offer(slot: Slot) | Ack(slot: Slot) | Silent

  /** dhcp_server_init: every lease zeroed. */
  const INITIAL: Table := seq(MAX_IP, _ => Lease(FREE, 0))

  predicate Usable(t: Table, clock: Clock, i: Slot)
  {
    t[i].mac == FREE || Expired(t[i].expiry, clock[i])
  }

  /** The first slot from `i` on that holds `mac`, MAX_IP if none does. */
  function FirstHeld(t: Table, mac: Mac, i: nat): (r: nat)
    requires i <= MAX_IP
    ensures i <= r <= MAX_IP
    ensures forall j | i <= j < r :: t[j].mac != mac
    ensures r < MAX_IP ==> t[r].mac == mac
    decreases MAX_IP - i
  {
    if i == MAX_IP || t[i].mac == mac then i else FirstHeld(t, mac, i + 1)
  }

  /** The first slot from `i` on that is free or expired, MAX_IP if none is. */
  function FirstUsable(t: Table, clock: Clock, i: nat): (r: nat)
    requires i <= MAX_IP
    ensures i <= r <= MAX_IP
    ensures forall j | i <= j < r :: !Usable(t, clock, j)
    ensures r < MAX_IP ==> Usable(t, clock, r)
    decreases MAX_IP - i
  {
    if i == MAX_IP || Usable(t, clock, i) then i else FirstUsable(t, clock, i + 1)
  }

  function Freed(t: Table, i: Slot): Table
  {
    t[i := t[i].(mac := FREE)]
  }

  /** A DISCOVER: the client's own slot if it has one, else the first usable one, which is freed. */
  function OnDiscover(t: Table, mac: Mac, clock: Clock): (Table, Outcome)
  {
    var held := FirstHeld(t, mac, 0);
    var usable := FirstUsable(t, clock, 0);
    (if usable < held then Freed(t, usable) else t,
     if held < MAX_IP then Offer(held) else if usable < MAX_IP then Offer(usable) else Silent)
  }

  /** A REQUEST for one slot: granted to the holder or when the slot is free, and then written. */
  function OnRequest(t: Table, mac: Mac, slot: Slot, now: nat): (Table, Outcome)
  {
    if t[slot].mac == mac || t[slot].mac == FREE then
      (t[slot := Lease(mac, StoredExpiry(now))], Ack(slot))
    else
      (t, Silent)
  }

  function Step(t: Table, e: Event): (Table, Outcome)
  {
    match e.msg
    case Discover(mac) => OnDiscover(t, mac, e.clock)
    case Request(mac, slot) => OnRequest(t, mac, slot, e.clock[0])
    case Other => (t, Silent)
  }

  /** The slot is held by somebody else whose lease reads as live at its clock reading. */
  ghost predicate TakenFor(t: Table, mac: Mac, clock: Clock, i: Slot)
  {
    t[i].mac != FREE && t[i].mac != mac && !Expired(t[i].expiry, clock[i])
  }

  /**
   Slot `c` is the right one to offer: it holds the client and no earlier one does; or no slot
   holds the client, `c` is free or expired and every earlier slot is taken by somebody else.
   */
  ghost predicate RightOffer(t: Table, mac: Mac, clock: Clock, c: Slot)
  {
    || (t[c].mac == mac && forall i: Slot | i < c :: t[i].mac != mac)
    || (&& (forall i: Slot :: t[i].mac != mac)
        && Usable(t, clock, c)
        && forall i: Slot | i < c :: TakenFor(t, mac, clock, i))
  }

  /** No offer is made exactly when all eight slots are taken by others. */
  lemma {:induction false} SilentIffAllTaken(t: Table, mac: Mac, clock: Clock)
    ensures OnDiscover(t, mac, clock).1.Silent? <==> forall i: Slot :: TakenFor(t, mac, clock, i)
  {
    var held := FirstHeld(t, mac, 0);
    var usable := FirstUsable(t, clock, 0);
    if held < MAX_IP {
      assert !TakenFor(t, mac, clock, held);
    } else if usable < MAX_IP {
      assert !TakenFor(t, mac, clock, usable);
    } else {
      forall i: Slot
        ensures TakenFor(t, mac, clock, i)
      {
        assert t[i].mac != mac && !Usable(t, clock, i);
      }
    }
  }

  /** Every offer is the right one, and only one slot is. */
  lemma {:induction false} OfferIsRight(t: Table, mac: Mac, clock: Clock, c: Slot)
    ensures OnDiscover(t, mac, clock).1 == Offer(c) <==> RightOffer(t, mac, clock, c)
  {
    var held := FirstHeld(t, mac, 0);
    var usable := FirstUsable(t, clock, 0);
    if held < MAX_IP {
      assert t[held].mac == mac;
    } else {
      assert forall i: Slot :: t[i].mac != mac;
      if usable < MAX_IP {
        assert forall i: Slot | i < usable :: TakenFor(t, mac, clock, i);
        assert !TakenFor(t, mac, clock, usable);
      }
    }
  }

  /** The slot a DISCOVER clears: the first usable one, if the loop gets there before the client's own. */
  ghost predicate Clears(t: Table, mac: Mac, clock: Clock, f: Slot)
  {
    && Usable(t, clock, f)
    && (forall i: Slot | i < f :: !Usable(t, clock, i))
    && (forall i: Slot | i <= f :: t[i].mac != mac)
  }

  /** What a DISCOVER leaves, slot by slot. */
  lemma {:induction false} DiscoverLeaves(t: Table, mac: Mac, clock: Clock, f: Slot)
    ensures OnDiscover(t, mac, clock).0[f] == if Clears(t, mac, clock, f) then t[f].(mac := FREE) else t[f]
  {
    var held := FirstHeld(t, mac, 0);
    var usable := FirstUsable(t, clock, 0);
    if usable < held {
      assert Usable(t, clock, usable);
      assert Clears(t, mac, clock, usable);
    }
  }

  /**
   What a DISCOVER may touch: at most one slot, of which only the MAC is cleared, whose lease
   had expired, and never one of the client's own. A new offer always leaves its slot free.
   */
  lemma {:induction false} DiscoverTouches(t: Table, mac: Mac, clock: Clock)
    ensures var (t', out) := OnDiscover(t, mac, clock);
            && (t' == t || exists f: Slot :: && t[f].mac != FREE && t[f].mac != mac
                                            && Expired(t[f].expiry, clock[f]) && t' == Freed(t, f))
            && (out.Offer? ==> t'[out.slot].mac == mac || t'[out.slot].mac == FREE)
  {
    var held := FirstHeld(t, mac, 0);
    var usable := FirstUsable(t, clock, 0);
    if usable < held && t[usable].mac == FREE {
      assert Freed(t, usable) == t;
    }
  }
}
