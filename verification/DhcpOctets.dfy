/**
 The DHCP server octet by octet: what it reads in a datagram and what it sends, in the numbers of
 RFC 2131 and RFC 2132.
 */
module DhcpOctets {
  import opened Bytes
  import opened DhcpOptions
  import opened LeaseClock
  import opened LeaseTable
  import opened DhcpMessage
  import opened DhcpServer

  /** A datagram shorter than 243 octets is ignored. */
  lemma {:induction false} ShortIsIgnored(t: Table, d: Datagram, ip: Ip4, nm: Ip4)
    requires |d.packet| < 243
    ensures Handled(d)
    ensures Step(t, EventOf(d, ip)).0 == t && Answer(t, d, ip, nm) == None
  {
  }

  /** And none of 243 or more is: three octets of options are enough for a DISCOVER, END or not. */
  lemma {:induction false} ShortestDiscover(d: Datagram, ip: Ip4)
    requires 243 <= |d.packet| && d.packet[240] == 53 && d.packet[242] == 1
    ensures Handled(d) && EventOf(d, ip) == Event(Discover(d.packet[28..34]), d.clock)
  {
    var msg := Received(d.packet, d.stack);
    ReceivedOctets(d.packet, d.stack);
    ReceivedSlice(d.packet, d.stack, 28, 34);
    assert OptionArea(msg)[0] == 53 && OptionArea(msg)[2] == 1;
    assert Find(OptionArea(msg), 0, OPT_MSG_TYPE) == Some(0);
  }

  /** The datagram carries this list: behind its 240th octet stand the encoded options and 255, within the buffer. */
  ghost predicate Carries(d: Datagram, list: seq<Opt>)
  {
    && 243 <= |d.packet| && AllWritable(list)
    && |Encode(list)| < 308 && Encode(list) + [255] <= d.packet[240..]
  }

  /** If the type option is present it has a data octet, and the requested address, if present, has four. */
  predicate Sized(list: seq<Opt>)
  {
    && (ListValue(list, 53).Some? ==> |ListValue(list, 53).value| >= 1)
    && (ListValue(list, 50).Some? ==> |ListValue(list, 50).value| == 4)
  }

  lemma {:induction false} CarriedIsHeld(d: Datagram, list: seq<Opt>)
    requires Carries(d, list)
    ensures HoldsAt(OptionArea(Received(d.packet, d.stack)), 0, list)
  {
    var msg := Received(d.packet, d.stack);
    var octets := Encode(list) + [255];
    var end := 240 + |octets|;
    ReceivedSlice(d.packet, d.stack, 240, end);
    assert d.packet[240..][..|octets|] == d.packet[240..end];
    assert OptionArea(msg)[0..] == OptionArea(msg);
    assert OptionArea(msg)[..|octets|] == msg[240..end];
    HoldsIffEncoded(OptionArea(msg), 0, list);
  }

  /** What a requested address asks for: on the server's network, the slots of host octets 16 to 23. */
  function Asked(asked: Option<seq<byte>>, ip: Ip4): Option<Slot>
    requires asked.Some? ==> |asked.value| == 4
  {
    if asked.Some? && asked.value[..3] == ip[..3] && 16 <= asked.value[3] <= 23 then Some(asked.value[3] - 16) else None
  }

  /**
   What the server makes of a datagram with well-formed options: type 1 is a DISCOVER, type 3 a REQUEST if
   the requested address is one that is leased, anything else is ignored.
   */
  lemma {:induction false} OptionsAreRead(d: Datagram, ip: Ip4, list: seq<Opt>)
    requires Carries(d, list) && Sized(list)
    ensures Handled(d) && EventOf(d, ip).clock == d.clock
    ensures var kind, mac := ListValue(list, 53), d.packet[28..34];
            EventOf(d, ip).msg
            == if kind.Some? && kind.value[0] == 1 then Discover(mac)
               else if kind.Some? && kind.value[0] == 3 && Asked(ListValue(list, 50), ip).Some?
               then Request(mac, Asked(ListValue(list, 50), ip).value)
               else Other
  {
    var msg := Received(d.packet, d.stack);
    CarriedIsHeld(d, list);
    WellFormedIsRead(msg, ip, list);
    ReceivedSlice(d.packet, d.stack, 28, 34);
    var asked := ListValue(list, 50);
    if asked.Some? {
      var a := asked.value;
      assert a == a[..3] + [a[3]];
      forall s: Slot
        ensures asked == Some(AddressOf(ip, s)) <==> Asked(asked, ip) == Some(s)
      {
        SameAddress(a, ip);
      }
    }
  }

  /** The octets of an answer, `k` being 2 in an offer and 5 in an acknowledgement, `h` the address's last octet. */
  function AnswerOctets(packet: seq<byte>, ip: Ip4, nm: Ip4, k: byte, h: byte): seq<byte>
    requires 243 <= |packet|
  {
    [2] + packet[1..16] + ip[..3] + [h] + packet[20..240]
    + [53, 1, k, 54, 4] + ip + [1, 4] + nm + [3, 4] + ip + [6, 4] + ip + [51, 4, 0, 1, 0x51, 0x80, 255]
  }

  /** Every answer to every datagram, whatever the buffer held before. */
  lemma {:induction false} AnswerInOctets(t: Table, d: Datagram, ip: Ip4, nm: Ip4)
    requires Handled(d)
    ensures var out := Step(t, EventOf(d, ip)).1;
            && (out != Silent ==> 243 <= |d.packet|)
            && Answer(t, d, ip, nm)
            == if out == Silent then None
               else Some(AnswerOctets(d.packet, ip, nm, if out.Offer? then 2 else 5, 16 + out.slot))
  {
    var out := Step(t, EventOf(d, ip)).1;
    if out != Silent {
      ReceivedSlice(d.packet, d.stack, 1, 16);
      ReceivedSlice(d.packet, d.stack, 20, 240);
      ReplyInOctets(Received(d.packet, d.stack), ip, nm, if out.Offer? then 2 else 5, out.slot);
    }
  }

  /**
   A DISCOVER is answered by the offer of a slot exactly when that slot is the right one: the first that
   holds the client, or where none does the first that is free or expired.
   */
  lemma {:induction false} DiscoverIsAnswered(t: Table, d: Datagram, ip: Ip4, nm: Ip4, list: seq<Opt>, c: Slot)
    requires Carries(d, list) && Sized(list) && ListValue(list, 53) == Some([1])
    ensures Handled(d)
    ensures Answer(t, d, ip, nm) == Some(AnswerOctets(d.packet, ip, nm, 2, 16 + c))
       <==> RightOffer(t, d.packet[28..34], d.clock, c)
    ensures Answer(t, d, ip, nm) == None <==> forall i: Slot :: TakenFor(t, d.packet[28..34], d.clock, i)
  {
    OptionsAreRead(d, ip, list);
    AnswerInOctets(t, d, ip, nm);
    OfferIsRight(t, d.packet[28..34], d.clock, c);
    SilentIffAllTaken(t, d.packet[28..34], d.clock);
    var out := Step(t, EventOf(d, ip)).1;
    if out != Silent {
      HostOctetTells(d.packet, ip, nm, 2, 16 + c, 16 + out.slot);
    }
  }

  lemma {:induction false} HostOctetTells(packet: seq<byte>, ip: Ip4, nm: Ip4, k: byte, h: byte, h': byte)
    requires 243 <= |packet|
    ensures AnswerOctets(packet, ip, nm, k, h) == AnswerOctets(packet, ip, nm, k, h') <==> h == h'
  {
    assert AnswerOctets(packet, ip, nm, k, h)[19] == h && AnswerOctets(packet, ip, nm, k, h')[19] == h';
  }

  /**
   A REQUEST for an address from host octet 16 to 23 is acknowledged exactly when its slot is free or the
   client's, and then and only then is the lease written; one for any other address changes nothing.
   */
  lemma {:induction false} RequestIsAnswered(t: Table, d: Datagram, ip: Ip4, nm: Ip4, list: seq<Opt>, asked: Ip4)
    requires Carries(d, list) && ListValue(list, 53) == Some([3]) && ListValue(list, 50) == Some(asked)
    ensures Handled(d)
    ensures var t', mac, h := Step(t, EventOf(d, ip)).0, d.packet[28..34], asked[3];
            if asked[..3] == ip[..3] && 16 <= h <= 23
               && (t[h - 16].mac == mac || t[h - 16].mac == [0, 0, 0, 0, 0, 0])
            then && Answer(t, d, ip, nm) == Some(AnswerOctets(d.packet, ip, nm, 5, h))
                 && t' == t[h - 16 := Lease(mac, StoredExpiry(d.clock[0]))]
            else Answer(t, d, ip, nm) == None && t' == t
  {
    OptionsAreRead(d, ip, list);
    AnswerInOctets(t, d, ip, nm);
  }
}
