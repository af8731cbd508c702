/**
 The DHCP message (RFC 2131 section 2) as the server reads it and as its clients read the reply.
 */
module DhcpMessage {
  import opened Bytes
  import opened DhcpOptions
  import opened LeaseClock
  import opened LeaseTable

  const DHCPDISCOVER: byte := 1
  const DHCPOFFER: byte := 2
  const DHCPREQUEST: byte := 3
  const DHCPACK: byte := 5

  const OPT_SUBNET_MASK: byte := 1
  const OPT_ROUTER: byte := 3
  const OPT_DNS: byte := 6
  const OPT_REQUESTED_IP: byte := 50
  const OPT_LEASE_TIME: byte := 51
  const OPT_MSG_TYPE: byte := 53
  const OPT_SERVER_ID: byte := 54

  /** DHCPS_BASE_IP: the last octet of the first address leased. */
  const BASE_IP: byte := 16

  /** sizeof(dhcp_msg_t), and the offsets of its fields. */
  const MSG_SIZE: nat := 548
  const YIADDR: nat := 16
  const CHADDR: nat := 28
  const OPTIONS: nat := 240

  /** The shortest datagram that is not ignored: the fixed part, the cookie and one option. */
  const MIN_SIZE: nat := 243

  type Msg = m: seq<byte> | |m| == MSG_SIZE witness seq(MSG_SIZE, _ => 0)

  function OptionArea(msg: Msg): (a: seq<byte>)
    ensures |a| == AREA
  {
    msg[OPTIONS..]
  }

  function ClientMac(msg: Msg): Mac
  {
    msg[CHADDR..CHADDR + 6]
  }

  /** The first option with code `cmd`, if there is one, has its octet `n` inside the area. */
  predicate Fits(a: seq<byte>, cmd: byte, n: nat)
  {
    match Find(a, 0, cmd)
    case None => true
    case Some(i) => i + n < |a|
  }

  /** The value octet of the message-type option, whatever its length octet says. */
  function KindOf(msg: Msg): Option<byte>
    requires Fits(OptionArea(msg), OPT_MSG_TYPE, 2)
  {
    match Find(OptionArea(msg), 0, OPT_MSG_TYPE)
    case None => None
    case Some(i) => Some(OptionArea(msg)[i + 2])
  }

  /** What the source asks of a message: the octets it reads behind a code it found are in the buffer. */
  predicate Readable(msg: Msg)
  {
    && Fits(OptionArea(msg), OPT_MSG_TYPE, 2)
    && (KindOf(msg) == Some(DHCPREQUEST) ==> Fits(OptionArea(msg), OPT_REQUESTED_IP, 5))
  }

  /** The address of a slot: the server's network and the slot's host octet. */
  function AddressOf(ip: Ip4, slot: Slot): Ip4
  {
    ip[..3] + [BASE_IP + slot]
  }

  /** How the server reads a message: the type, then for a REQUEST the address asked for. */
  function MessageOf(msg: Msg, ip: Ip4): Message
    requires Readable(msg)
  {
    match KindOf(msg)
    case None => Other
    case Some(kind) =>
      if kind == DHCPDISCOVER then Discover(ClientMac(msg))
      else if kind != DHCPREQUEST then Other
      else
        match AskedSlot(OptionArea(msg), ip)
        case None => Other
        case Some(slot) => Request(ClientMac(msg), slot)
  }

  /** The slot whose address a REQUEST asks for: on the server's network, host octet 16 to 23. */
  function AskedSlot(a: seq<byte>, ip: Ip4): Option<Slot>
    requires Fits(a, OPT_REQUESTED_IP, 5)
  {
    match Find(a, 0, OPT_REQUESTED_IP)
    case None => None
    case Some(o) =>
      var yi := (a[o + 5] - BASE_IP) % 0x100;
      if a[o + 2..o + 5] != ip[..3] || MAX_IP <= yi then None else Some(yi)
  }

  /** The options of a reply, in the order they are written. */
  function ReplyOptions(ip: Ip4, nm: Ip4, kind: byte): (list: seq<Opt>)
    ensures AllWritable(list)
  {
    [ Opt(OPT_MSG_TYPE, [kind]),
      Opt(OPT_SERVER_ID, ip),
      Opt(OPT_SUBNET_MASK, nm),
      Opt(OPT_ROUTER, ip),
      Opt(OPT_DNS, ip),
      Opt(OPT_LEASE_TIME, BigEndian32(LEASE_TIME_S)) ]
  }

  /** A message taken apart by the field layout of RFC 2131 section 2. */
  datatype Bootp = Bootp(
    op: byte, htype: byte, hlen: byte, hops: byte,
    xid: seq<byte>, secs: seq<byte>, flags: seq<byte>,
    ciaddr: seq<byte>, yiaddr: seq<byte>, siaddr: seq<byte>, giaddr: seq<byte>,
    chaddr: seq<byte>, sname: seq<byte>, file: seq<byte>, cookie: seq<byte>,
    options: Option<seq<Opt>>)

  function DecodeBootp(m: seq<byte>): Bootp
    requires OPTIONS <= |m|
  {
    Bootp(m[0], m[1], m[2], m[3], m[4..8], m[8..10], m[10..12],
          m[12..16], m[16..20], m[20..24], m[24..28],
          m[28..44], m[44..108], m[108..236], m[236..240], Decode(m[240..], 0))
  }

  /** The octets sent in answer to `msg`. */
  function Reply(msg: Msg, ip: Ip4, nm: Ip4, kind: byte, slot: Slot): seq<byte>
  {
    [DHCPOFFER] + msg[1..YIADDR] + AddressOf(ip, slot) + msg[YIADDR + 4..OPTIONS]
    + (Encode(ReplyOptions(ip, nm, kind)) + [END])
  }

  function ReplyTo(msg: Msg, ip: Ip4, nm: Ip4, out: Outcome): Option<seq<byte>>
  {
    match out
    case Silent => None
    case Offer(slot) => Some(Reply(msg, ip, nm, DHCPOFFER, slot))
    case Ack(slot) => Some(Reply(msg, ip, nm, DHCPACK, slot))
  }

  lemma {:induction false} EncodeCons(o: Opt, list: seq<Opt>)
    requires Writable(o) && AllWritable(list)
    ensures AllWritable([o] + list)
    ensures Encode([o] + list) == EncodeOpt(o) + Encode(list)
  {
    assert ([o] + list)[1..] == list;
  }

  lemma {:induction false} ReplyOptionOctets(ip: Ip4, nm: Ip4, kind: byte)
    ensures Encode(ReplyOptions(ip, nm, kind))
         == EncodeOpt(Opt(OPT_MSG_TYPE, [kind])) + (EncodeOpt(Opt(OPT_SERVER_ID, ip))
          + (EncodeOpt(Opt(OPT_SUBNET_MASK, nm)) + (EncodeOpt(Opt(OPT_ROUTER, ip))
          + (EncodeOpt(Opt(OPT_DNS, ip)) + EncodeOpt(Opt(OPT_LEASE_TIME, BigEndian32(LEASE_TIME_S)))))))
    ensures |Encode(ReplyOptions(ip, nm, kind))| == 33
  {
    var l := ReplyOptions(ip, nm, kind);
    EncodeCons(l[5], []);
    EncodeCons(l[4], [l[5]]);
    EncodeCons(l[3], [l[4]] + [l[5]]);
    EncodeCons(l[2], [l[3]] + ([l[4]] + [l[5]]));
    EncodeCons(l[1], [l[2]] + ([l[3]] + ([l[4]] + [l[5]])));
    EncodeCons(l[0], [l[1]] + ([l[2]] + ([l[3]] + ([l[4]] + [l[5]]))));
    assert [l[5]] + [] == [l[5]];
    assert l == [l[0]] + ([l[1]] + ([l[2]] + ([l[3]] + ([l[4]] + [l[5]]))));
    assert EncodeOpt(l[5]) + [] == EncodeOpt(l[5]);
  }

  /**
   A reply read by RFC 2131 and RFC 2132: 274 octets, every fixed field the request's but the
   opcode and `yiaddr`, and exactly the six options, closed by END.
   */
  lemma {:induction false} ReplyDecodes(msg: Msg, ip: Ip4, nm: Ip4, kind: byte, slot: Slot)
    ensures var r := Reply(msg, ip, nm, kind, slot);
            && |r| == 274
            && DecodeBootp(r) == DecodeBootp(msg).(
                 op := 2, yiaddr := ip[..3] + [16 + slot],
                 options := Some([Opt(53, [kind]), Opt(54, ip), Opt(1, nm), Opt(3, ip), Opt(6, ip),
                                  Opt(51, [0, 1, 0x51, 0x80])]))
  {
    ReplyOptionOctets(ip, nm, kind);
    var r := Reply(msg, ip, nm, kind, slot);
    var list := ReplyOptions(ip, nm, kind);
    var tail := Encode(list) + [END];
    assert r[OPTIONS..] == tail;
    assert tail[0..] == tail;
    HoldsIffEncoded(tail, 0, list);
    DecodeInvertsEncode(tail, 0, list);
    ReplyFixedPart(msg, ip, nm, kind, slot);
  }

  lemma {:induction false} ReplyFixedPart(msg: Msg, ip: Ip4, nm: Ip4, kind: byte, slot: Slot)
    ensures var r := Reply(msg, ip, nm, kind, slot);
            && OPTIONS < |r| && r[0] == DHCPOFFER && r[YIADDR..YIADDR + 4] == AddressOf(ip, slot)
            && (forall j, k | 1 <= j <= k <= YIADDR || YIADDR + 4 <= j <= k <= OPTIONS :: r[j..k] == msg[j..k])
            && r[1] == msg[1] && r[2] == msg[2] && r[3] == msg[3]
  {
    var r := Reply(msg, ip, nm, kind, slot);
    assert forall k | 1 <= k < YIADDR || YIADDR + 4 <= k < OPTIONS :: r[k] == msg[k];
  }

  /** The value the server's own search finds for an option of a reply. */
  function ValueOf(a: seq<byte>, cmd: byte): Option<seq<byte>>
  {
    match Find(a, 0, cmd)
    case None => None
    case Some(i) => if i + 2 + LengthAt(a, i + 1) <= |a| then Some(a[i + 2..i + 2 + LengthAt(a, i + 1)]) else None
  }

  /** The data of the first option with the code in a list, if any. */
  function ListValue(list: seq<Opt>, cmd: byte): Option<seq<byte>>
  {
    var k := FirstWithCode(list, cmd);
    if k < |list| then Some(list[k].data) else None
  }

  lemma {:induction false} ValueOfDistinct(list: seq<Opt>, k: nat)
    requires k < |list| && forall j | 0 <= j < k :: list[j].code != list[k].code
    ensures ListValue(list, list[k].code) == Some(list[k].data)
  {
    assert FirstWithCode(list, list[k].code) == k;
  }

  lemma {:induction false} SearchedValue(a: seq<byte>, list: seq<Opt>, cmd: byte)
    requires AllWritable(list) && HoldsAt(a, 0, list)
    ensures ValueOf(a, cmd) == ListValue(list, cmd)
  {
    FindInList(a, 0, list, cmd);
  }

  /**
   The server's own search over a reply's option area recovers the value of every option and
   nothing else, and the mask stands before the router (RFC 2132 section 3.3).
   */
  lemma {:induction false} ReplyIsSearchable(msg: Msg, ip: Ip4, nm: Ip4, kind: byte, slot: Slot)
    ensures |Reply(msg, ip, nm, kind, slot)| == 274
    ensures var a := Reply(msg, ip, nm, kind, slot)[OPTIONS..];
            && (forall cmd :: ValueOf(a, cmd) == ListValue(ReplyOptions(ip, nm, kind), cmd))
            && Find(a, 0, 1).Some? && Find(a, 0, 3).Some?
            && Find(a, 0, 1).value < Find(a, 0, 3).value
  {
    ReplyOptionOctets(ip, nm, kind);
    var list := ReplyOptions(ip, nm, kind);
    var a := Reply(msg, ip, nm, kind, slot)[OPTIONS..];
    assert a == Encode(list) + [END] && a[0..] == a;
    HoldsIffEncoded(a, 0, list);
    forall cmd: byte
      ensures ValueOf(a, cmd) == ListValue(list, cmd)
    {
      SearchedValue(a, list, cmd);
    }
    MaskBeforeRouter(a, list);
  }

  /** The values a client looks up in an offer or an acknowledgement. */
  lemma {:induction false} ReplyValues(ip: Ip4, nm: Ip4, kind: byte)
    ensures var list := ReplyOptions(ip, nm, kind);
            && ListValue(list, 53) == Some([kind])
            && ListValue(list, 54) == Some(ip)
            && ListValue(list, 1) == Some(nm)
            && ListValue(list, 3) == Some(ip)
            && ListValue(list, 6) == Some(ip)
            && ListValue(list, 51) == Some([0, 1, 0x51, 0x80])
            && Value32([0, 1, 0x51, 0x80]) == 86400
            && ListValue(list, 50) == None
  {
    var list := ReplyOptions(ip, nm, kind);
    forall k | 0 <= k < 6
      ensures ListValue(list, list[k].code) == Some(list[k].data)
    {
      ValueOfDistinct(list, k);
    }
    assert list[0].code == OPT_MSG_TYPE && list[1].code == OPT_SERVER_ID && list[2].code == OPT_SUBNET_MASK;
    assert list[3].code == OPT_ROUTER && list[4].code == OPT_DNS && list[5].code == OPT_LEASE_TIME;
    assert FirstWithCode(list, OPT_REQUESTED_IP) == 6;
    assert BigEndian32(86400) == [0, 1, 0x51, 0x80];
    BigEndian32RoundTrip(86400);
  }

  lemma {:induction false} MaskBeforeRouter(a: seq<byte>, list: seq<Opt>)
    requires AllWritable(list) && HoldsAt(a, 0, list)
    requires 4 <= |list| && list[2].code == OPT_SUBNET_MASK && list[3].code == OPT_ROUTER
    requires forall j | 0 <= j < 2 :: list[j].code != OPT_SUBNET_MASK && list[j].code != OPT_ROUTER
    ensures Find(a, 0, OPT_SUBNET_MASK).Some? && Find(a, 0, OPT_ROUTER).Some?
    ensures Find(a, 0, OPT_SUBNET_MASK).value < Find(a, 0, OPT_ROUTER).value
  {
    FindInList(a, 0, list, OPT_SUBNET_MASK);
    FindInList(a, 0, list, OPT_ROUTER);
    assert FirstWithCode(list, OPT_SUBNET_MASK) == 2;
    assert FirstWithCode(list, OPT_ROUTER) == 3;
    OffsetGrows(list, 2);
  }

  lemma {:induction false} OffsetGrows(list: seq<Opt>, k: nat)
    requires k < |list|
    ensures Offset(list, k) < Offset(list, k + 1)
  {
    if k > 0 {
      OffsetGrows(list[1..], k - 1);
    }
  }

  /** The option area of a reply, octet by octet. */
  lemma {:induction false} OptionsInOctets(ip: Ip4, nm: Ip4, kind: byte)
    ensures Encode(ReplyOptions(ip, nm, kind)) + [END]
         == [53, 1, kind, 54, 4] + ip + [1, 4] + nm + [3, 4] + ip + [6, 4] + ip + [51, 4, 0, 1, 0x51, 0x80, 255]
  {
    ReplyOptionOctets(ip, nm, kind);
    var lease := [51, 4, 0, 1, 0x51, 0x80];
    assert EncodeOpt(Opt(OPT_LEASE_TIME, BigEndian32(LEASE_TIME_S))) == lease;
    var tail := [3, 4] + ip + [6, 4] + ip + (lease + [END]);
    assert [3, 4] + ip + ([6, 4] + ip + lease) + [END] == tail;
    assert [53, 1, kind] + ([54, 4] + ip) == [53, 1, kind, 54, 4] + ip;
    assert lease + [END] == [51, 4, 0, 1, 0x51, 0x80, 255];
  }

  /** The whole reply, octet by octet. */
  lemma {:induction false} ReplyInOctets(msg: Msg, ip: Ip4, nm: Ip4, kind: byte, slot: Slot)
    ensures Reply(msg, ip, nm, kind, slot)
         == [2] + msg[1..16] + ip[..3] + [16 + slot] + msg[20..240]
          + [53, 1, kind, 54, 4] + ip + [1, 4] + nm + [3, 4] + ip + [6, 4] + ip + [51, 4, 0, 1, 0x51, 0x80, 255]
  {
    OptionsInOctets(ip, nm, kind);
    var fixedPart := [2] + msg[1..16] + ip[..3] + [16 + slot] + msg[20..240];
    assert Reply(msg, ip, nm, kind, slot) == fixedPart + (Encode(ReplyOptions(ip, nm, kind)) + [END]);
  }

  /** The server's two tests on a requested address recognise exactly the addresses it leases. */
  lemma {:induction false} SameAddress(asked: Ip4, ip: Ip4)
    ensures forall s: Slot :: asked == AddressOf(ip, s)
              <==> asked[..3] == ip[..3] && (asked[3] - BASE_IP) % 0x100 == s
  {
    forall s: Slot
      ensures asked == AddressOf(ip, s) <==> asked[..3] == ip[..3] && (asked[3] - BASE_IP) % 0x100 == s
    {
      assert asked == asked[..3] + [asked[3]];
      assert AddressOf(ip, s)[..3] == ip[..3];
    }
  }

  lemma {:induction false} AskedIsRead(a: seq<byte>, ip: Ip4, list: seq<Opt>)
    requires AllWritable(list) && HoldsAt(a, 0, list)
    requires ListValue(list, OPT_REQUESTED_IP).Some? ==> |ListValue(list, OPT_REQUESTED_IP).value| == 4
    ensures Fits(a, OPT_REQUESTED_IP, 5)
    ensures forall s: Slot :: AskedSlot(a, ip) == Some(s)
              <==> ListValue(list, OPT_REQUESTED_IP) == Some(AddressOf(ip, s))
  {
    FindInList(a, 0, list, OPT_REQUESTED_IP);
    var asked := ListValue(list, OPT_REQUESTED_IP);
    if asked.Some? {
      var o := Find(a, 0, OPT_REQUESTED_IP).value;
      assert asked.value == a[o + 2..o + 6];
      assert a[o + 2..o + 5] == asked.value[..3] && a[o + 5] == asked.value[3];
      SameAddress(asked.value, ip);
    }
  }

  lemma {:induction false} KindIsRead(msg: Msg, list: seq<Opt>)
    requires AllWritable(list) && HoldsAt(OptionArea(msg), 0, list)
    requires ListValue(list, OPT_MSG_TYPE).Some? ==> |ListValue(list, OPT_MSG_TYPE).value| >= 1
    ensures Fits(OptionArea(msg), OPT_MSG_TYPE, 2)
    ensures KindOf(msg) == match ListValue(list, OPT_MSG_TYPE) case None => None case Some(v) => Some(v[0])
  {
    var a := OptionArea(msg);
    FindInList(a, 0, list, OPT_MSG_TYPE);
    var kind := ListValue(list, OPT_MSG_TYPE);
    if kind.Some? {
      var i := Find(a, 0, OPT_MSG_TYPE).value;
      assert a[i + 2] == a[i + 2..i + 2 + |kind.value|][0];
    }
  }

  /**
   How a well-formed message is read. Its options are any list closed by END in which the message
   type, if present, has a data octet and the requested address, if present, has four.
   */
  lemma {:induction false} WellFormedIsRead(msg: Msg, ip: Ip4, list: seq<Opt>)
    requires AllWritable(list) && HoldsAt(OptionArea(msg), 0, list)
    requires ListValue(list, OPT_MSG_TYPE).Some? ==> |ListValue(list, OPT_MSG_TYPE).value| >= 1
    requires ListValue(list, OPT_REQUESTED_IP).Some? ==> |ListValue(list, OPT_REQUESTED_IP).value| == 4
    ensures Readable(msg)
    ensures var kind, asked := ListValue(list, OPT_MSG_TYPE), ListValue(list, OPT_REQUESTED_IP);
            && (MessageOf(msg, ip) == Discover(ClientMac(msg)) <==> kind.Some? && kind.value[0] == DHCPDISCOVER)
            && (forall s: Slot :: MessageOf(msg, ip) == Request(ClientMac(msg), s)
                  <==> kind.Some? && kind.value[0] == DHCPREQUEST && asked == Some(AddressOf(ip, s)))
  {
    KindIsRead(msg, list);
    AskedIsRead(OptionArea(msg), ip, list);
  }

  /** Different slots have different addresses. */
  lemma {:induction false} AddressesDiffer(ip: Ip4, s: Slot, s': Slot)
    requires AddressOf(ip, s) == AddressOf(ip, s')
    ensures s == s'
  {
    assert AddressOf(ip, s)[3] == AddressOf(ip, s')[3];
  }
}
