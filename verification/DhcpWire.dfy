/**
 The lease guarantees read off the wire: runs of raw datagrams, and statements about the octets
 that clients send and receive.
 */
module DhcpWire {
  import opened Bytes
  import opened DhcpOptions
  import opened LeaseTable
  import opened LeaseRuns
  import opened LeaseOffers
  import opened LeaseClients
  import opened DhcpMessage
  import opened DhcpServer

  type Datagrams = ds: seq<Datagram> | forall k | 0 <= k < |ds| :: Handled(ds[k])

  function Events(ds: Datagrams, ip: Ip4): (es: seq<Event>)
    ensures |es| == |ds|
  {
    seq(|ds|, k requires 0 <= k < |ds| => EventOf(ds[k], ip))
  }

  /** `ts[k]` are the leases before datagram `k` is processed. */
  ghost predicate IsWireRun(ts: seq<Table>, ds: Datagrams, ip: Ip4)
  {
    IsRun(ts, Events(ds, ip))
  }

  /** A reply of the given type, as a client reads it: an address for a hardware address. */
  ghost predicate Says(reply: Option<seq<byte>>, kind: byte, addr: Ip4, mac: Mac)
  {
    && reply.Some? && 240 <= |reply.value|
    && var b := DecodeBootp(reply.value);
      && b.yiaddr == addr && b.chaddr[..6] == mac
      && b.options.Some? && ListValue(b.options.value, 53) == Some([kind])
  }

  lemma {:induction false} OctetsSay(msg: Msg, ip: Ip4, nm: Ip4, sent: byte, slot: Slot,
                                    kind: byte, addr: Ip4, mac: Mac)
    ensures Says(Some(Reply(msg, ip, nm, sent, slot)), kind, addr, mac)
       <==> kind == sent && addr == AddressOf(ip, slot) && mac == ClientMac(msg)
  {
    ReplyDecodes(msg, ip, nm, sent, slot);
    ReplyValues(ip, nm, sent);
    assert DecodeBootp(msg).chaddr[..6] == ClientMac(msg);
  }

  /** What a client reads in a reply tells the server's decision. */
  lemma {:induction false} ReplySays(msg: Msg, ip: Ip4, nm: Ip4, out: Outcome, kind: byte, addr: Ip4, mac: Mac)
    requires kind == DHCPOFFER || kind == DHCPACK
    ensures Says(ReplyTo(msg, ip, nm, out), kind, addr, mac)
       <==> && (if kind == DHCPACK then out.Ack? else out.Offer?)
            && addr == AddressOf(ip, out.slot) && mac == ClientMac(msg)
  {
    match out
    case Silent =>
    case Offer(slot) => OctetsSay(msg, ip, nm, DHCPOFFER, slot, kind, addr, mac);
    case Ack(slot) => OctetsSay(msg, ip, nm, DHCPACK, slot, kind, addr, mac);
  }

  /** Datagram `d` is read as a REQUEST by `mac` for the address. */
  ghost predicate Asks(d: Datagram, ip: Ip4, addr: Ip4, mac: Mac)
    requires Handled(d)
  {
    exists s: Slot :: EventOf(d, ip).msg == Request(mac, s) && AddressOf(ip, s) == addr
  }

  lemma {:induction false} RequestsIffAsks(ds: Datagrams, ip: Ip4, n: nat, i: Slot, mac: Mac)
    requires n < |ds|
    ensures Requests(Events(ds, ip), n, i, mac) <==> Asks(ds[n], ip, AddressOf(ip, i), mac)
  {
    if Asks(ds[n], ip, AddressOf(ip, i), mac) {
      var s: Slot :| EventOf(ds[n], ip).msg == Request(mac, s) && AddressOf(ip, s) == AddressOf(ip, i);
      AddressesDiffer(ip, s, i);
    }
  }

  /** An acknowledgement in the table is an acknowledgement on the wire. */
  lemma {:induction false} AckedIffSays(ts: seq<Table>, ds: Datagrams, ip: Ip4, nm: Ip4, n: nat, i: Slot, mac: Mac)
    requires IsWireRun(ts, ds, ip) && n < |ds|
    ensures Acked(ts, Events(ds, ip), n, i, mac)
       <==> Says(Answer(ts[n], ds[n], ip, nm), DHCPACK, AddressOf(ip, i), mac)
  {
    var out := Step(ts[n], EventOf(ds[n], ip)).1;
    ReplySays(Received(ds[n].packet, ds[n].stack), ip, nm, out, DHCPACK, AddressOf(ip, i), mac);
    if out.Ack? && AddressOf(ip, out.slot) == AddressOf(ip, i) {
      AddressesDiffer(ip, out.slot, i);
    }
  }

  /** And an offer is an offer. */
  lemma {:induction false} OfferedIffSays(ts: seq<Table>, ds: Datagrams, ip: Ip4, nm: Ip4, n: nat, i: Slot, mac: Mac)
    requires IsWireRun(ts, ds, ip) && n < |ds|
    ensures Offered(ts, Events(ds, ip), n, i, mac)
       <==> Says(Answer(ts[n], ds[n], ip, nm), DHCPOFFER, AddressOf(ip, i), mac)
  {
    var out := Step(ts[n], EventOf(ds[n], ip)).1;
    ReplySays(Received(ds[n].packet, ds[n].stack), ip, nm, out, DHCPOFFER, AddressOf(ip, i), mac);
    if out.Offer? && AddressOf(ip, out.slot) == AddressOf(ip, i) {
      AddressesDiffer(ip, out.slot, i);
    }
  }

  /** An address that an offer or an acknowledgement names is a slot's. */
  lemma {:induction false} SaidSlot(t: Table, d: Datagram, ip: Ip4, nm: Ip4, kind: byte, addr: Ip4, mac: Mac)
    returns (slot: Slot)
    requires Handled(d) && (kind == DHCPOFFER || kind == DHCPACK)
    requires Says(Answer(t, d, ip, nm), kind, addr, mac)
    ensures addr == AddressOf(ip, slot)
  {
    var out := Step(t, EventOf(d, ip)).1;
    ReplySays(Received(d.packet, d.stack), ip, nm, out, kind, addr, mac);
    slot := out.slot;
  }

  /**
   Between two acknowledgements on the wire of one address to different clients, more than the
   lease time of 86,400,000 ms passes, whatever datagrams arrived and however often the clock wrapped.
   */
  lemma {:induction false} AddressIsExclusive(ts: seq<Table>, ds: Datagrams, ip: Ip4, nm: Ip4, a: nat, b: nat,
                                             addr: Ip4, mac: Mac, other: Mac)
    requires IsWireRun(ts, ds, ip) && a < b < |ds|
    requires mac != FREE && other != mac
    requires Says(Answer(ts[a], ds[a], ip, nm), DHCPACK, addr, mac)
    requires Says(Answer(ts[b], ds[b], ip, nm), DHCPACK, addr, other)
    ensures ds[b].clock[0] > ds[a].clock[0] + 86_400_000
  {
    var i := SaidSlot(ts[a], ds[a], ip, nm, DHCPACK, addr, mac);
    AckedIffSays(ts, ds, ip, nm, a, i, mac);
    AckedIffSays(ts, ds, ip, nm, b, i, other);
    LeaseIsExclusive(ts, Events(ds, ip), a, b, i, mac, other);
  }

  /** From datagram `a` on, an earlier REQUEST for the address is at most 86,400,000 ms before datagram `n`. */
  ghost predicate AsksInTime(ds: Datagrams, ip: Ip4, a: nat, n: nat, addr: Ip4, mac: Mac)
    requires n < |ds|
  {
    exists j | a <= j < n :: Asks(ds[j], ip, addr, mac) && ds[n].clock[0] <= ds[j].clock[0] + 86_400_000
  }

  lemma {:induction false} InTimeRenews(ds: Datagrams, ip: Ip4, a: nat, n: nat, i: Slot, mac: Mac) returns (j: nat)
    requires n < |ds| && AsksInTime(ds, ip, a, n, AddressOf(ip, i), mac)
    ensures a <= j && Renews(Events(ds, ip), j, n, i, mac)
  {
    j :| a <= j < n && Asks(ds[j], ip, AddressOf(ip, i), mac) && ds[n].clock[0] <= ds[j].clock[0] + 86_400_000;
    RequestsIffAsks(ds, ip, j, i, mac);
  }

  /**
   An acknowledged client that keeps sending REQUESTs for its address, none more than 86,400,000 ms
   after another, has every one acknowledged, whatever other datagrams arrive.
   */
  lemma {:induction false} RenewedAddressIsKept(ts: seq<Table>, ds: Datagrams, ip: Ip4, nm: Ip4, a: nat, k: nat,
                                               addr: Ip4, mac: Mac)
    requires IsWireRun(ts, ds, ip) && a <= k < |ds| && mac != FREE
    requires Says(Answer(ts[a], ds[a], ip, nm), DHCPACK, addr, mac)
    requires Asks(ds[k], ip, addr, mac)
    requires forall n | a < n <= k && Asks(ds[n], ip, addr, mac) :: AsksInTime(ds, ip, a, n, addr, mac)
    ensures Says(Answer(ts[k], ds[k], ip, nm), DHCPACK, addr, mac)
  {
    var es := Events(ds, ip);
    var i := SaidSlot(ts[a], ds[a], ip, nm, DHCPACK, addr, mac);
    AckedIffSays(ts, ds, ip, nm, a, i, mac);
    RequestsIffAsks(ds, ip, k, i, mac);
    forall n | a < n <= k && Requests(es, n, i, mac)
      ensures exists j :: a <= j && Renews(es, j, n, i, mac)
    {
      RequestsIffAsks(ds, ip, n, i, mac);
      var j := InTimeRenews(ds, ip, a, n, i, mac);
    }
    RenewalsNeverFail(ts, es, a, k, i, mac);
    AckedIffSays(ts, ds, ip, nm, k, i, mac);
  }

  /** The answer acknowledges the address to somebody other than `mac`, the all-zero client aside. */
  ghost predicate GivesAway(reply: Option<seq<byte>>, addr: Ip4, mac: Mac)
  {
    exists other: Mac :: Says(reply, DHCPACK, addr, other) && other != mac && other != FREE
  }

  /** No answer strictly between datagrams `a` and `b` gives the address away. */
  ghost predicate NotGivenAway(ts: seq<Table>, ds: Datagrams, ip: Ip4, nm: Ip4, a: nat, b: nat, addr: Ip4, mac: Mac)
    requires |ds| < |ts| && b <= |ds|
  {
    forall n | a < n < b :: !GivesAway(Answer(ts[n], ds[n], ip, nm), addr, mac)
  }

  lemma {:induction false} RivalIffGivesAway(ts: seq<Table>, ds: Datagrams, ip: Ip4, nm: Ip4, n: nat, i: Slot, mac: Mac)
    requires IsWireRun(ts, ds, ip) && n < |ds|
    ensures GivenToRival(ts, Events(ds, ip), n, i, mac)
       <==> GivesAway(Answer(ts[n], ds[n], ip, nm), AddressOf(ip, i), mac)
  {
    forall other: Mac
      ensures Acked(ts, Events(ds, ip), n, i, other)
         <==> Says(Answer(ts[n], ds[n], ip, nm), DHCPACK, AddressOf(ip, i), other)
    {
      AckedIffSays(ts, ds, ip, nm, n, i, other);
    }
  }

  lemma {:induction false} UnrivalledIff(ts: seq<Table>, ds: Datagrams, ip: Ip4, nm: Ip4, a: nat, b: nat,
                                        i: Slot, mac: Mac)
    requires IsWireRun(ts, ds, ip) && b <= |ds|
    ensures Unrivalled(ts, Events(ds, ip), a, b, i, mac) <==> NotGivenAway(ts, ds, ip, nm, a, b, AddressOf(ip, i), mac)
  {
    forall n: nat | a < n < b
      ensures GivenToRival(ts, Events(ds, ip), n, i, mac)
         <==> GivesAway(Answer(ts[n], ds[n], ip, nm), AddressOf(ip, i), mac)
    {
      RivalIffGivesAway(ts, ds, ip, nm, n, i, mac);
    }
  }

  /** The datagram is a DISCOVER for which the server clears the lease of the address. */
  ghost predicate Clearing(t: Table, d: Datagram, ip: Ip4, addr: Ip4)
    requires Handled(d)
  {
    var e := EventOf(d, ip);
    e.msg.Discover? && exists i: Slot :: AddressOf(ip, i) == addr && Clears(t, e.msg.mac, e.clock, i)
  }

  /** Datagram `n` had the address given away, and no later one before datagram `b` has cleared it. */
  ghost predicate KeptFrom(ts: seq<Table>, ds: Datagrams, ip: Ip4, nm: Ip4, n: nat, b: nat, addr: Ip4, mac: Mac)
    requires |ds| < |ts| && n < b <= |ds|
  {
    && GivesAway(Answer(ts[n], ds[n], ip, nm), addr, mac)
    && forall d | n < d < b :: !Clearing(ts[d], ds[d], ip, addr)
  }

  lemma {:induction false} ClearedIffClearing(ts: seq<Table>, ds: Datagrams, ip: Ip4, d: nat, i: Slot)
    requires d < |ds| < |ts|
    ensures ClearedAt(ts, Events(ds, ip), d, i) <==> Clearing(ts[d], ds[d], ip, AddressOf(ip, i))
  {
    if Clearing(ts[d], ds[d], ip, AddressOf(ip, i)) {
      var e := EventOf(ds[d], ip);
      var s: Slot :| AddressOf(ip, s) == AddressOf(ip, i) && Clears(ts[d], e.msg.mac, e.clock, s);
      AddressesDiffer(ip, s, i);
    }
  }

  lemma {:induction false} RivalKeepsIff(ts: seq<Table>, ds: Datagrams, ip: Ip4, nm: Ip4, n: nat, b: nat, i: Slot,
                                        mac: Mac)
    requires IsWireRun(ts, ds, ip) && n < b <= |ds|
    ensures RivalKeeps(ts, Events(ds, ip), n, b, i, mac) <==> KeptFrom(ts, ds, ip, nm, n, b, AddressOf(ip, i), mac)
  {
    RivalIffGivesAway(ts, ds, ip, nm, n, i, mac);
    forall d: nat | n < d < b
      ensures ClearedAt(ts, Events(ds, ip), d, i) <==> Clearing(ts[d], ds[d], ip, AddressOf(ip, i))
    {
      ClearedIffClearing(ts, ds, ip, d, i);
    }
  }

  /**
   An address offered on the wire and then asked for after any wait is acknowledged exactly when each
   time it was given to another client in between it has since been cleared.
   */
  lemma {:induction false} OfferedAddressIsGranted(ts: seq<Table>, ds: Datagrams, ip: Ip4, nm: Ip4, a: nat, b: nat,
                                                  addr: Ip4, mac: Mac)
    requires IsWireRun(ts, ds, ip) && a < b < |ds|
    requires Says(Answer(ts[a], ds[a], ip, nm), DHCPOFFER, addr, mac)
    requires Asks(ds[b], ip, addr, mac)
    ensures Says(Answer(ts[b], ds[b], ip, nm), DHCPACK, addr, mac)
       <==> forall n | a < n < b :: !KeptFrom(ts, ds, ip, nm, n, b, addr, mac)
  {
    var i := SaidSlot(ts[a], ds[a], ip, nm, DHCPOFFER, addr, mac);
    OfferedIffSays(ts, ds, ip, nm, a, i, mac);
    RequestsIffAsks(ds, ip, b, i, mac);
    AckedIffSays(ts, ds, ip, nm, b, i, mac);
    OfferIsHonouredIff(ts, Events(ds, ip), a, b, i, mac);
    forall n: nat | a < n < b
      ensures RivalKeeps(ts, Events(ds, ip), n, b, i, mac) <==> KeptFrom(ts, ds, ip, nm, n, b, addr, mac)
    {
      RivalKeepsIff(ts, ds, ip, nm, n, b, i, mac);
    }
  }

  /** Asked for within the lease time it is acknowledged exactly when no answer in between gave it away. */
  lemma {:induction false} OfferedAddressInTime(ts: seq<Table>, ds: Datagrams, ip: Ip4, nm: Ip4, a: nat, b: nat,
                                               addr: Ip4, mac: Mac)
    requires IsWireRun(ts, ds, ip) && a < b < |ds|
    requires Says(Answer(ts[a], ds[a], ip, nm), DHCPOFFER, addr, mac)
    requires Asks(ds[b], ip, addr, mac)
    requires ds[b].clock[0] <= ds[a].clock[0] + 86_400_000
    ensures Says(Answer(ts[b], ds[b], ip, nm), DHCPACK, addr, mac) <==> NotGivenAway(ts, ds, ip, nm, a, b, addr, mac)
  {
    var i := SaidSlot(ts[a], ds[a], ip, nm, DHCPOFFER, addr, mac);
    OfferedIffSays(ts, ds, ip, nm, a, i, mac);
    RequestsIffAsks(ds, ip, b, i, mac);
    AckedIffSays(ts, ds, ip, nm, b, i, mac);
    UnrivalledIff(ts, ds, ip, nm, a, b, i, mac);
    OfferIsHonouredInTime(ts, Events(ds, ip), a, b, i, mac);
  }

  /** A well-formed REQUEST that carries the address asks for it. */
  lemma {:induction false} WellFormedAsks(d: Datagram, ip: Ip4, list: seq<Opt>, s: Slot, mac: Mac)
    requires MIN_SIZE <= |d.packet|
    requires AllWritable(list) && HoldsAt(OptionArea(Received(d.packet, d.stack)), 0, list)
    requires ListValue(list, OPT_MSG_TYPE) == Some([DHCPREQUEST])
    requires ListValue(list, OPT_REQUESTED_IP) == Some(AddressOf(ip, s))
    requires ClientMac(Received(d.packet, d.stack)) == mac
    ensures Handled(d) && Asks(d, ip, AddressOf(ip, s), mac)
  {
    WellFormedIsRead(Received(d.packet, d.stack), ip, list);
    assert EventOf(d, ip).msg == Request(mac, s);
  }

  /** An answer belongs to the datagram it answers: it carries that transaction's id, flags and hardware address. */
  lemma {:induction false} AnswerKeepsTransaction(t: Table, d: Datagram, ip: Ip4, nm: Ip4)
    requires Handled(d) && Answer(t, d, ip, nm).Some?
    ensures 243 <= |d.packet| && |Answer(t, d, ip, nm).value| == 274
    ensures var answer := DecodeBootp(Answer(t, d, ip, nm).value);
            && answer.xid == d.packet[4..8]
            && answer.flags == d.packet[10..12]
            && answer.chaddr == d.packet[28..44]
  {
    var out := Step(t, EventOf(d, ip)).1;
    ReplyDecodes(Received(d.packet, d.stack), ip, nm, if out.Offer? then DHCPOFFER else DHCPACK, out.slot);
    ReceivedSlice(d.packet, d.stack, 4, 8);
    ReceivedSlice(d.packet, d.stack, 10, 12);
    ReceivedSlice(d.packet, d.stack, 28, 44);
  }

  // ---- One address per client ----

  /** The address that an answer offers to the client, if it does. */
  function OfferIn(reply: Option<seq<byte>>, mac: Mac): Option<Ip4>
  {
    if reply.None? || |reply.value| < 240 then None
    else
      var b := DecodeBootp(reply.value);
      if b.chaddr[..6] == mac && b.options.Some? && ListValue(b.options.value, 53) == Some([2])
      then Some(b.yiaddr) else None
  }

  /** The address most recently offered once the reply has come, `last` being the one before. */
  function NextOfferIn(reply: Option<seq<byte>>, mac: Mac, last: Option<Ip4>): Option<Ip4>
  {
    if OfferIn(reply, mac).Some? then OfferIn(reply, mac) else last
  }

  /** The address most recently offered to the client before datagram `k`. */
  ghost function LastOfferIn(ts: seq<Table>, ds: Datagrams, ip: Ip4, nm: Ip4, k: nat, mac: Mac): Option<Ip4>
    requires k <= |ds| < |ts|
  {
    if k == 0 then None
    else NextOfferIn(Answer(ts[k - 1], ds[k - 1], ip, nm), mac, LastOfferIn(ts, ds, ip, nm, k - 1, mac))
  }

  /** Clients with a nonzero address ask only for the address they were last offered. */
  ghost predicate Obedient(ts: seq<Table>, ds: Datagrams, ip: Ip4, nm: Ip4)
    requires |ds| < |ts|
  {
    forall k: nat, addr: Ip4, mac: Mac | k < |ds| && mac != FREE && Asks(ds[k], ip, addr, mac) ::
      LastOfferIn(ts, ds, ip, nm, k, mac) == Some(addr)
  }

  function SlotAddress(ip: Ip4, slot: Option<Slot>): Option<Ip4>
  {
    if slot.None? then None else Some(AddressOf(ip, slot.value))
  }

  lemma {:induction false} OctetsOffer(msg: Msg, ip: Ip4, nm: Ip4, sent: byte, slot: Slot, mac: Mac)
    ensures OfferIn(Some(Reply(msg, ip, nm, sent, slot)), mac)
         == if sent == DHCPOFFER && ClientMac(msg) == mac then Some(AddressOf(ip, slot)) else None
  {
    ReplyDecodes(msg, ip, nm, sent, slot);
    ReplyValues(ip, nm, sent);
    assert DecodeBootp(msg).chaddr[..6] == ClientMac(msg);
  }

  lemma {:induction false} OfferOnWire(t: Table, d: Datagram, ip: Ip4, nm: Ip4, mac: Mac, last: Option<Slot>)
    requires Handled(d)
    ensures SlotAddress(ip, NextOffer(t, EventOf(d, ip), mac, last))
         == NextOfferIn(Answer(t, d, ip, nm), mac, SlotAddress(ip, last))
  {
    var msg := Received(d.packet, d.stack);
    match Step(t, EventOf(d, ip)).1
    case Silent =>
    case Offer(slot) => OctetsOffer(msg, ip, nm, DHCPOFFER, slot, mac);
    case Ack(slot) => OctetsOffer(msg, ip, nm, DHCPACK, slot, mac);
  }

  lemma {:induction false} NextOfferOnWire(ts: seq<Table>, ds: Datagrams, ip: Ip4, nm: Ip4, k: nat, mac: Mac)
    requires k < |ds| < |ts|
    ensures SlotAddress(ip, LastOffer(ts, Events(ds, ip), k + 1, mac))
         == NextOfferIn(Answer(ts[k], ds[k], ip, nm), mac, SlotAddress(ip, LastOffer(ts, Events(ds, ip), k, mac)))
  {
    OfferOnWire(ts[k], ds[k], ip, nm, mac, LastOffer(ts, Events(ds, ip), k, mac));
  }

  lemma {:induction false} LastOfferOnWire(ts: seq<Table>, ds: Datagrams, ip: Ip4, nm: Ip4, k: nat, mac: Mac)
    requires k <= |ds| < |ts|
    ensures LastOfferIn(ts, ds, ip, nm, k, mac) == SlotAddress(ip, LastOffer(ts, Events(ds, ip), k, mac))
    decreases k
  {
    if k > 0 {
      LastOfferOnWire(ts, ds, ip, nm, k - 1, mac);
      NextOfferOnWire(ts, ds, ip, nm, k - 1, mac);
    }
  }

  lemma {:induction false} ObedientIsDisciplined(ts: seq<Table>, ds: Datagrams, ip: Ip4, nm: Ip4)
    requires IsWireRun(ts, ds, ip) && Obedient(ts, ds, ip, nm)
    ensures Disciplined(ts, Events(ds, ip))
  {
    var es := Events(ds, ip);
    forall k: nat, mac: Mac | k < |es| && mac != FREE
      ensures Honest(ts, es, k, mac)
    {
      forall i: Slot | es[k].msg == Request(mac, i)
        ensures LastOffer(ts, es, k, mac) == Some(i)
      {
        RequestsIffAsks(ds, ip, k, i, mac);
        LastOfferOnWire(ts, ds, ip, nm, k, mac);
        AddressesDiffer(ip, LastOffer(ts, es, k, mac).value, i);
      }
    }
  }

  /**
   Where clients ask only for what they were last offered, a client that is acknowledged two
   different addresses is so more than 86,400,000 ms apart: it never holds both.
   */
  lemma {:induction false} OneAddressAtATime(ts: seq<Table>, ds: Datagrams, ip: Ip4, nm: Ip4, a: nat, b: nat,
                                            first: Ip4, second: Ip4, mac: Mac)
    requires IsWireRun(ts, ds, ip) && ts[0] == INITIAL && Obedient(ts, ds, ip, nm)
    requires a < b < |ds| && mac != FREE && first != second
    requires Says(Answer(ts[a], ds[a], ip, nm), DHCPACK, first, mac)
    requires Says(Answer(ts[b], ds[b], ip, nm), DHCPACK, second, mac)
    ensures ds[b].clock[0] > ds[a].clock[0] + 86_400_000
  {
    var es := Events(ds, ip);
    var i := SaidSlot(ts[a], ds[a], ip, nm, DHCPACK, first, mac);
    var j := SaidSlot(ts[b], ds[b], ip, nm, DHCPACK, second, mac);
    AckedIffSays(ts, ds, ip, nm, a, i, mac);
    AckedIffSays(ts, ds, ip, nm, b, j, mac);
    ObedientIsDisciplined(ts, ds, ip, nm);
    OneAddressEach(ts, es, b);
    DisciplinedTakesNoSecond(ts, es, b);
    SecondAddressWaits(ts, es, a, b, i, j, mac);
  }
}
