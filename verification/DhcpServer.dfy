/**
 The DHCP server: the lease table updated in place, and a reply built in the buffer that the
 request was received in.
 */
module DhcpServer {
  import opened Bytes
  import opened DhcpOptions
  import opened LeaseClock
  import opened LeaseTable
  import opened DhcpMessage

  /** What one call sees: the datagram, the buffer's earlier contents, and the clock readings. */
  datatype Datagram = Datagram(packet: seq<byte>, stack: Msg, clock: Clock)

  /** Short datagrams are ignored; of the others the octets behind a found option code are in the buffer. */
  predicate Handled(d: Datagram)
  {
    MIN_SIZE <= |d.packet| ==> Readable(Received(d.packet, d.stack))
  }

  function EventOf(d: Datagram, ip: Ip4): Event
    requires Handled(d)
  {
    Event(if |d.packet| < MIN_SIZE then Other else MessageOf(Received(d.packet, d.stack), ip), d.clock)
  }

  /** The datagram sent in answer, if any, when the leases are `t`. */
  function Answer(t: Table, d: Datagram, ip: Ip4, nm: Ip4): Option<seq<byte>>
    requires Handled(d)
  {
    ReplyTo(Received(d.packet, d.stack), ip, nm, Step(t, EventOf(d, ip)).1)
  }

  /** The buffer is `before` with the options in `list` written up to `opt`. */
  ghost predicate Holding(before: seq<byte>, now: seq<byte>, opt: nat, list: seq<Opt>)
  {
    && AllWritable(list)
    && opt == OPTIONS + |Encode(list)|
    && WrittenAt(before, now, OPTIONS, Encode(list))
  }

  /** Writing the next option behind the `k` already written. */
  lemma {:induction false} HoldsNext(before: seq<byte>, was: seq<byte>, now: seq<byte>, opt: nat,
                                    list: seq<Opt>, k: nat)
    requires AllWritable(list) && k < |list|
    requires Holding(before, was, opt, list[..k])
    requires WrittenAt(was, now, opt, EncodeOpt(list[k]))
    ensures Holding(before, now, opt + 2 + |list[k].data|, list[..k + 1])
  {
    WrittenThen(before, was, now, OPTIONS, Encode(list[..k]), EncodeOpt(list[k]));
    EncodeAppend(list[..k], list[k]);
    assert list[..k + 1] == list[..k] + [list[k]];
  }

  /** The fixed part of the reply to `msg`: the request's but for the opcode and `yiaddr`. */
  ghost predicate FixedPart(buf: seq<byte>, msg: Msg, ip: Ip4, slot: Slot)
  {
    && OPTIONS <= |buf|
    && buf[..OPTIONS] == [DHCPOFFER] + msg[1..YIADDR] + AddressOf(ip, slot) + msg[YIADDR + 4..OPTIONS]
  }

  /** The buffer is `msg` but for its opcode and `yiaddr`, where the server's address now stands. */
  ghost predicate Stamped(buf: seq<byte>, msg: Msg, ip: Ip4)
  {
    && |buf| == MSG_SIZE
    && buf[0] == DHCPOFFER
    && buf[1..YIADDR] == msg[1..YIADDR]
    && buf[YIADDR..YIADDR + 4] == ip
    && buf[YIADDR + 4..] == msg[YIADDR + 4..]
  }

  lemma {:induction false} FixedPartIsDone(msg: Msg, stamped: seq<byte>, ip: Ip4, slot: Slot)
    requires Stamped(stamped, msg, ip)
    ensures FixedPart(stamped[YIADDR + 3 := BASE_IP + slot], msg, ip, slot)
  {
    var s := stamped[YIADDR + 3 := BASE_IP + slot];
    assert s[..OPTIONS] == [s[0]] + s[1..YIADDR] + s[YIADDR..YIADDR + 4] + s[YIADDR + 4..OPTIONS];
    assert s[YIADDR..YIADDR + 4] == AddressOf(ip, slot) by {
      assert s[YIADDR..YIADDR + 3] == stamped[YIADDR..YIADDR + 4][..3];
    }
    assert s[1..YIADDR] == stamped[1..YIADDR];
    assert s[YIADDR + 4..OPTIONS] == stamped[YIADDR + 4..][..OPTIONS - YIADDR - 4];
  }

  /** What the rest of the request is read from is not what was overwritten. */
  lemma {:induction false} StampedReadsTheSame(buf: Msg, msg: Msg, ip: Ip4)
    requires Stamped(buf, msg, ip)
    ensures OptionArea(buf) == OptionArea(msg) && ClientMac(buf) == ClientMac(msg)
  {
    var b, m := buf[YIADDR + 4..], msg[YIADDR + 4..];
    assert OptionArea(buf) == b[OPTIONS - YIADDR - 4..] && OptionArea(msg) == m[OPTIONS - YIADDR - 4..];
    assert ClientMac(buf) == b[CHADDR - YIADDR - 4..][..6] && ClientMac(msg) == m[CHADDR - YIADDR - 4..][..6];
  }

  class Server {
    const ip: Ip4
    const nm: Ip4
    const lease: array<Lease>

    predicate Valid()
    {
      lease.Length == MAX_IP
    }

    function Leases(): Table
      requires Valid()
      reads lease
    {
      lease[..]
    }

    /** dhcp_server_init. */
    constructor (ip: Ip4, nm: Ip4)
      ensures Valid() && fresh(lease)
      ensures this.ip == ip && this.nm == nm
      ensures Leases() == INITIAL
    {
      this.ip := ip;
      this.nm := nm;
      lease := new Lease[MAX_IP](_ => Lease(FREE, 0));
    }

    /** The DISCOVER loop: the slot to offer, MAX_IP for none; one expired slot may be freed on the way. */
    method ChooseSlot(chaddr: Mac, clock: Clock) returns (yi: nat)
      requires Valid()
      modifies lease
      ensures yi <= MAX_IP
      ensures OnDiscover(old(Leases()), chaddr, clock)
           == (Leases(), if yi < MAX_IP then Offer(yi) else Silent)
    {
      ghost var t := Leases();
      yi := MAX_IP;
      for i := 0 to MAX_IP
        invariant forall k | 0 <= k < i :: t[k].mac != chaddr
        invariant yi == MAX_IP ==> Leases() == t && forall k | 0 <= k < i :: !Usable(t, clock, k)
        invariant yi != MAX_IP ==> yi < i && yi == FirstUsable(t, clock, 0) && Leases() == Freed(t, yi)
      {
        assert Leases()[i] == t[i];
        if lease[i].mac == chaddr {
          assert FirstHeld(t, chaddr, 0) == i;
          yi := i;
          break;
        }
        if yi == MAX_IP {
          if lease[i].mac == FREE {
            yi := i;
          }
          var expiry := lease[i].expiry * 0x1_0000 + 0xffff;
          if (expiry - Tick(clock[i])) % WRAP >= HALF {
            lease[i] := lease[i].(mac := FREE);
            yi := i;
          }
          if yi == i {
            assert Usable(t, clock, i) && FirstUsable(t, clock, 0) == i;
            assert Leases() == Freed(t, i);
          }
        }
      }
    }

    /** A REQUEST for slot `yi`: grants it to its holder or when it is free, and stamps the expiry. */
    method GrantSlot(chaddr: Mac, yi: Slot, now: nat) returns (granted: bool)
      requires Valid()
      modifies lease
      ensures OnRequest(old(Leases()), chaddr, yi, now) == (Leases(), if granted then Ack(yi) else Silent)
    {
      if lease[yi].mac == chaddr {
      } else if lease[yi].mac == FREE {
        lease[yi] := lease[yi].(mac := chaddr);
      } else {
        return false;
      }
      var deadline := (Tick(now) + LEASE_TIME_S * 1000) % WRAP;
      lease[yi] := lease[yi].(expiry := deadline / 0x1_0000);
      assert Leases() == old(Leases())[yi := Lease(chaddr, StoredExpiry(now))];
      return true;
    }

    /** The options that follow the message type in every reply, and END; returns the reply's length. */
    method WriteTail(msg: array<byte>, start: nat, ghost kind: byte, ghost before: seq<byte>) returns (len: nat)
      requires msg.Length == MSG_SIZE && start == OPTIONS + 3
      requires Holding(before, msg[..], start, [Opt(OPT_MSG_TYPE, [kind])])
      modifies msg
      ensures len == OPTIONS + 34
      ensures WrittenAt(before, msg[..], OPTIONS, Encode(ReplyOptions(ip, nm, kind)) + [END])
    {
      ghost var list := ReplyOptions(ip, nm, kind);
      assert list[..1] == [Opt(OPT_MSG_TYPE, [kind])];
      var opt := WriteNext(msg, start, OPT_SERVER_ID, ip, before, list, 1);
      opt := WriteNext(msg, opt, OPT_SUBNET_MASK, nm, before, list, 2);
      opt := WriteNext(msg, opt, OPT_ROUTER, ip, before, list, 3);
      opt := WriteNext(msg, opt, OPT_DNS, ip, before, list, 4);
      len := WriteLeaseTime(msg, opt, before, list);
    }

    /** opt_write_n of the next option of the list, behind the `k` already written. */
    method WriteNext(msg: array<byte>, opt: nat, cmd: byte, data: Ip4, ghost before: seq<byte>, ghost list: seq<Opt>,
                     ghost k: nat)
      returns (next: nat)
      requires AllWritable(list) && k < |list| && list[k] == Opt(cmd, data)
      requires opt + 6 <= msg.Length
      requires Holding(before, msg[..], opt, list[..k])
      modifies msg
      ensures next == opt + 6
      ensures Holding(before, msg[..], next, list[..k + 1])
    {
      ghost var was := msg[..];
      next := OptWriteN(msg, opt, cmd, data);
      HoldsNext(before, was, msg[..], opt, list, k);
    }

    /** The last option, and END. */
    method WriteLeaseTime(msg: array<byte>, opt: nat, ghost before: seq<byte>, ghost list: seq<Opt>) returns (len: nat)
      requires opt + 7 <= msg.Length
      requires list != [] && AllWritable(list) && list[|list| - 1] == Opt(OPT_LEASE_TIME, BigEndian32(LEASE_TIME_S))
      requires Holding(before, msg[..], opt, list[..|list| - 1])
      modifies msg
      ensures len == opt + 7
      ensures WrittenAt(before, msg[..], OPTIONS, Encode(list) + [END])
    {
      ghost var was := msg[..];
      var next := OptWriteU32(msg, opt, OPT_LEASE_TIME, LEASE_TIME_S);
      HoldsNext(before, was, msg[..], opt, list, |list| - 1);
      assert list[..|list|] == list;
      len := WriteEnd(msg, next, before, list);
    }

    /** The terminator behind the options already written. */
    method WriteEnd(msg: array<byte>, opt: nat, ghost before: seq<byte>, ghost list: seq<Opt>) returns (len: nat)
      requires opt < msg.Length
      requires Holding(before, msg[..], opt, list)
      modifies msg
      ensures len == opt + 1
      ensures WrittenAt(before, msg[..], OPTIONS, Encode(list) + [END])
    {
      ghost var was := msg[..];
      msg[opt] := END;
      WrittenPointwise(was, msg[..], opt, [END]);
      WrittenThen(before, was, msg[..], OPTIONS, Encode(list), [END]);
      len := opt + 1;
    }

    /** What the request asks, read from the buffer whose opcode and `yiaddr` are already overwritten. */
    method ReadMessage(buf: array<byte>, ghost msg: Msg) returns (m: Message)
      requires buf.Length == MSG_SIZE
      requires Readable(msg) && Stamped(buf[..], msg, ip)
      ensures m == MessageOf(msg, ip)
    {
      StampedReadsTheSame(buf[..], msg, ip);
      ghost var area := OptionArea(msg);
      assert buf[OPTIONS..OPTIONS + AREA] == area;
      var msgtype := OptFind(buf, OPTIONS, OPT_MSG_TYPE);
      if msgtype == None {
        return Other;
      }
      var kind := buf[OPTIONS + msgtype.value + 2];
      assert kind == area[msgtype.value + 2];
      var chaddr := buf[CHADDR..CHADDR + 6];
      if kind == DHCPDISCOVER {
        return Discover(chaddr);
      } else if kind == DHCPREQUEST {
        var asked := ReadAskedSlot(buf, area);
        return if asked.None? then Other else Request(chaddr, asked.value);
      }
      return Other;
    }

    /** The tests on the requested address; None where the source gives up. */
    method ReadAskedSlot(buf: array<byte>, ghost area: seq<byte>) returns (asked: Option<Slot>)
      requires buf.Length == MSG_SIZE && buf[OPTIONS..OPTIONS + AREA] == area
      requires Fits(area, OPT_REQUESTED_IP, 5)
      ensures asked == AskedSlot(area, ip)
    {
      var o := OptFind(buf, OPTIONS, OPT_REQUESTED_IP);
      if o == None {
        return None;
      }
      var at := OPTIONS + o.value;
      SubSlice(buf[..], OPTIONS, AREA, o.value + 2, o.value + 5);
      assert buf[at + 2..at + 5] == area[o.value + 2..o.value + 5];
      assert buf[at + 5] == area[o.value + 5];
      if buf[at + 2..at + 5] != ip[..3] {
        return None;
      }
      var yi := (buf[at + 5] - BASE_IP) % 0x100;
      return if yi >= MAX_IP then None else Some(yi);
    }

    /** The switch on the message type: what the message does to the leases. */
    method Act(m: Message, clock: Clock) returns (out: Outcome)
      requires Valid()
      modifies lease
      ensures Step(old(Leases()), Event(m, clock)) == (Leases(), out)
    {
      match m {
        case Discover(mac) =>
          var yi := ChooseSlot(mac, clock);
          out := if yi < MAX_IP then Offer(yi) else Silent;
        case Request(mac, slot) =>
          var granted := GrantSlot(mac, slot, clock[0]);
          out := if granted then Ack(slot) else Silent;
        case Other =>
          out := Silent;
      }
    }

    /** dhcp_server_process: one datagram, handled in the buffer it is copied into. */
    method Process(packet: seq<byte>, buf: array<byte>, clock: Clock) returns (sent: Option<seq<byte>>)
      requires Valid() && buf.Length == MSG_SIZE
      requires Handled(Datagram(packet, buf[..], clock))
      modifies lease, buf
      ensures var d := Datagram(packet, old(buf[..]), clock);
              && Leases() == Step(old(Leases()), EventOf(d, ip)).0
              && sent == Answer(old(Leases()), d, ip, nm)
    {
      if |packet| < MIN_SIZE {
        return None;
      }
      ghost var msg: Msg := Received(packet, buf[..]);
      Receive(packet, buf);
      var m := ReadMessage(buf, msg);
      var out := Act(m, clock);
      if out == Silent {
        return None;
      }
      ghost var stamped := buf[..];
      buf[YIADDR + 3] := BASE_IP + out.slot;
      FixedPartIsDone(msg, stamped, ip, out.slot);
      var n := WriteReply(buf, msg, out);
      sent := Some(buf[..n]);
    }

    /** Copies the datagram into the buffer and overwrites its opcode and `yiaddr`. */
    method Receive(packet: seq<byte>, buf: array<byte>)
      requires buf.Length == MSG_SIZE
      modifies buf
      ensures Stamped(buf[..], Received(packet, old(buf[..])), ip)
    {
      var len := if |packet| < MSG_SIZE then |packet| else MSG_SIZE;
      forall k | 0 <= k < len {
        buf[k] := packet[k];
      }
      assert buf[..] == Received(packet, old(buf[..]));
      buf[0] := DHCPOFFER;
      forall k | 0 <= k < 4 {
        buf[YIADDR + k] := ip[k];
      }
    }

    /** The option area of the reply, behind its finished fixed part. */
    method WriteReply(buf: array<byte>, ghost msg: Msg, out: Outcome) returns (n: nat)
      requires buf.Length == MSG_SIZE && out != Silent
      requires FixedPart(buf[..], msg, ip, out.slot)
      modifies buf
      ensures n <= MSG_SIZE
      ensures Some(buf[..n]) == ReplyTo(msg, ip, nm, out)
    {
      ghost var before := buf[..];
      var kind := if out.Offer? then DHCPOFFER else DHCPACK;
      var opt := OptWriteU8(buf, OPTIONS, OPT_MSG_TYPE, kind);
      ghost var first := Opt(OPT_MSG_TYPE, [kind]);
      assert Encode([first]) == EncodeOpt(first);
      n := WriteTail(buf, opt, kind, before);
      ReplyOptionOctets(ip, nm, kind);
      assert buf[..n] == before[..OPTIONS] + (Encode(ReplyOptions(ip, nm, kind)) + [END]);
    }
  }
}
