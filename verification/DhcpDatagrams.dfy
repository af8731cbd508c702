/** Every run of the lease table is a run of datagrams, so what fails for the one fails on the wire. */
module DhcpDatagrams {
  import opened Bytes
  import opened DhcpOptions
  import opened LeaseTable
  import opened LeaseRuns
  import opened DhcpMessage
  import opened DhcpServer
  import opened DhcpWire

  /** The options a client sends. */
  function Sent(m: Message, ip: Ip4): (list: seq<Opt>)
    ensures AllWritable(list)
  {
    match m
    case Discover(_) => [Opt(OPT_MSG_TYPE, [DHCPDISCOVER])]
    case Request(_, slot) => [Opt(OPT_MSG_TYPE, [DHCPREQUEST]), Opt(OPT_REQUESTED_IP, AddressOf(ip, slot))]
    case Other => []
  }

  function Sender(m: Message): Mac
  {
    if m.Other? then FREE else m.mac
  }

  lemma {:induction false} SentSize(m: Message, ip: Ip4)
    ensures |Encode(Sent(m, ip))| <= 9
  {
    var list := Sent(m, ip);
    if m.Request? {
      assert list[1..][1..] == [];
      assert |Encode(list[1..])| == 6;
    } else if m.Discover? {
      assert list[1..] == [];
    }
  }

  /** A whole message: fixed fields zero but for the hardware address, then the options, END and zeros. */
  function Packet(m: Message, ip: Ip4): (p: seq<byte>)
    ensures |p| == MSG_SIZE
  {
    SentSize(m, ip);
    var octets := Encode(Sent(m, ip)) + [END];
    Zeros(CHADDR) + Sender(m) + Zeros(OPTIONS - CHADDR - 6) + octets + Zeros(AREA - |octets|)
  }

  function Zeros(n: nat): (s: seq<byte>)
    ensures |s| == n
  {
    seq(n, _ => 0)
  }

  lemma {:induction false} PacketParts(m: Message, ip: Ip4)
    ensures ClientMac(Packet(m, ip)) == Sender(m)
    ensures HoldsAt(OptionArea(Packet(m, ip)), 0, Sent(m, ip))
  {
    SentSize(m, ip);
    var list := Sent(m, ip);
    var area := OptionArea(Packet(m, ip));
    var octets := Encode(list) + [END];
    assert area == octets + Zeros(AREA - |octets|);
    assert area[0..] == area;
    HoldsIffEncoded(area, 0, list);
  }

  lemma {:induction false} SentValues(m: Message, ip: Ip4)
    ensures ListValue(Sent(m, ip), OPT_MSG_TYPE)
         == match m
            case Discover(_) => Some([DHCPDISCOVER])
            case Request(_, _) => Some([DHCPREQUEST])
            case Other => None
    ensures ListValue(Sent(m, ip), OPT_REQUESTED_IP)
         == if m.Request? then Some(AddressOf(ip, m.slot)) else None
  {
    var list := Sent(m, ip);
    if m.Request? {
      ValueOfDistinct(list, 0);
      ValueOfDistinct(list, 1);
    } else if m.Discover? {
      ValueOfDistinct(list, 0);
      assert FirstWithCode(list, OPT_REQUESTED_IP) == 1;
    }
  }

  /** Whatever the buffer held before, the server reads the packet as the message it was made for. */
  lemma {:induction false} PacketIsRead(m: Message, ip: Ip4, stack: Msg)
    ensures Readable(Packet(m, ip))
    ensures Received(Packet(m, ip), stack) == Packet(m, ip)
    ensures MessageOf(Packet(m, ip), ip) == m
  {
    var list := Sent(m, ip);
    PacketParts(m, ip);
    SentValues(m, ip);
    WellFormedIsRead(Packet(m, ip), ip, list);
    if m.Request? {
      assert MessageOf(Packet(m, ip), ip) == Request(Sender(m), m.slot);
    } else if m.Other? {
      KindIsRead(Packet(m, ip), list);
    }
  }

  /** For every event there is a datagram that is that event, whatever the buffer held before. */
  lemma {:induction false} EventOnWire(e: Event, ip: Ip4, stack: Msg)
    ensures var d := Datagram(Packet(e.msg, ip), stack, e.clock);
            Handled(d) && EventOf(d, ip) == e
  {
    PacketIsRead(e.msg, ip, stack);
  }

  function WireOf(es: seq<Event>, ip: Ip4, stack: Msg): (ds: Datagrams)
    ensures |ds| == |es|
  {
    OnWire(es, ip, stack);
    Sending(es, ip, stack)
  }

  function Sending(es: seq<Event>, ip: Ip4, stack: Msg): (ds: seq<Datagram>)
    ensures |ds| == |es|
  {
    seq(|es|, k requires 0 <= k < |es| => Datagram(Packet(es[k].msg, ip), stack, es[k].clock))
  }

  lemma {:induction false} OnWire(es: seq<Event>, ip: Ip4, stack: Msg)
    ensures var ds := Sending(es, ip, stack);
            forall k | 0 <= k < |es| :: Handled(ds[k]) && EventOf(ds[k], ip) == es[k]
  {
    var ds := Sending(es, ip, stack);
    forall k | 0 <= k < |es|
      ensures Handled(ds[k]) && EventOf(ds[k], ip) == es[k]
    {
      EventOnWire(es[k], ip, stack);
    }
  }

  /** So every run, of whatever clients, is one that datagrams bring about. */
  lemma {:induction false} EveryRunIsOnTheWire(ts: seq<Table>, es: seq<Event>, ip: Ip4, stack: Msg)
    requires IsRun(ts, es)
    ensures Events(WireOf(es, ip, stack), ip) == es
    ensures IsWireRun(ts, WireOf(es, ip, stack), ip)
  {
    OnWire(es, ip, stack);
    assert Events(WireOf(es, ip, stack), ip) == es;
  }

  /** On the wire, once a client is acknowledged an address, nobody else is within a lease time. */
  ghost predicate HasItAlone(mac: Mac, ip: Ip4, nm: Ip4)
  {
    forall ts: seq<Table>, ds: Datagrams, a: nat, b: nat, addr: Ip4, other: Mac ::
      IsWireRun(ts, ds, ip) && a < b < |ds| && other != mac
      && Says(Answer(ts[a], ds[a], ip, nm), DHCPACK, addr, mac)
      && Says(Answer(ts[b], ds[b], ip, nm), DHCPACK, addr, other)
      ==> ds[b].clock[0] > ds[a].clock[0] + 86_400_000
  }

  /** Datagrams by which the all-zero client and any other are acknowledged one address at one time. */
  lemma {:induction false} ZeroMacShares(ip: Ip4, nm: Ip4, other: Mac, c: Clock, stack: Msg)
    returns (ts: seq<Table>, ds: Datagrams)
    requires other != FREE && c == seq(MAX_IP, _ => c[0])
    ensures IsWireRun(ts, ds, ip) && ts[0] == INITIAL && |ds| == 2
    ensures ds[0].clock == ds[1].clock == c
    ensures Says(Answer(ts[0], ds[0], ip, nm), DHCPACK, AddressOf(ip, 0), FREE)
    ensures Says(Answer(ts[1], ds[1], ip, nm), DHCPACK, AddressOf(ip, 0), other)
  {
    var es := [Event(Request(FREE, 0), c), Event(Request(other, 0), c)];
    var t1 := Step(INITIAL, es[0]).0;
    ts := [INITIAL, t1, Step(t1, es[1]).0];
    assert IsRun(ts, es);
    ds := WireOf(es, ip, stack);
    EveryRunIsOnTheWire(ts, es, ip, stack);
    AckedIffSays(ts, ds, ip, nm, 0, 0, FREE);
    AckedIffSays(ts, ds, ip, nm, 1, 0, other);
  }

  /** For every server, an address on the wire is a client's alone exactly when the client is not all zero. */
  lemma {:induction false} HasItAloneIff(mac: Mac, ip: Ip4, nm: Ip4)
    ensures HasItAlone(mac, ip, nm) <==> mac != [0, 0, 0, 0, 0, 0]
  {
    if mac == FREE {
      var ts, ds := ZeroMacShares(ip, nm, [2, 0, 0, 0, 0, 1], seq(MAX_IP, _ => 0), Zeros(MSG_SIZE));
    } else {
      forall ts: seq<Table>, ds: Datagrams, a: nat, b: nat, addr: Ip4, other: Mac |
        IsWireRun(ts, ds, ip) && a < b < |ds| && other != mac
        && Says(Answer(ts[a], ds[a], ip, nm), DHCPACK, addr, mac)
        && Says(Answer(ts[b], ds[b], ip, nm), DHCPACK, addr, other)
        ensures ds[b].clock[0] > ds[a].clock[0] + 86_400_000
      {
        AddressIsExclusive(ts, ds, ip, nm, a, b, addr, mac, other);
      }
    }
  }
}
