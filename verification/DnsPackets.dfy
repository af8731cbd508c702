/** The DNS server told from the datagram's own octets, whatever its array held before, in the numbers of RFC 1035. */
module DnsPackets {
  import opened Bytes
  import opened DnsName
  import opened DnsMessage
  import opened DnsServer

  /** Every label has 1 to 63 octets. */
  predicate Labelled(name: Name)
  {
    forall k | 0 <= k < |name| :: 1 <= |name[k]| <= 63
  }

  /** Labels of 1 to 63 octets, and at most 255 octets for the whole name (RFC 1035 section 2.3.4). */
  predicate Lawful(name: Name)
  {
    Labelled(name) && |EncodeName(name)| <= 255
  }

  /** The labels with their length octets: the encoded name without its root. */
  function Labels(name: Name): seq<byte>
    requires Labelled(name)
  {
    EncodeName(name)[..|EncodeName(name)| - 1]
  }

  /** A whole name of at most 255 octets stands at the front. */
  ghost predicate Whole(s: seq<byte>, name: Name)
  {
    Labelled(name) && |EncodeName(name)| <= 255 && EncodeName(name) <= s
  }

  /** The octets stop short within labels that take at most 255. */
  ghost predicate CutShort(s: seq<byte>, name: Name)
  {
    Labelled(name) && |Labels(name)| <= 255 && s <= Labels(name)
  }

  lemma {:induction false} LabelsSplit(name: Name)
    requires Labelled(name) && name != []
    ensures Labelled(name[1..])
    ensures Labels(name) == [|name[0]|] + name[0] + Labels(name[1..])
  {
    var e, rest := EncodeName(name), EncodeName(name[1..]);
    assert e == [|name[0]|] + name[0] + rest;
    assert rest == rest[..|rest| - 1] + rest[|rest| - 1..];
  }

  /** Where octets stop short within labels, the walk goes on to the end of a label, and no further than the last. */
  lemma {:induction false} CutWalk(m: seq<byte>, p: nat, name: Name)
    requires p <= |m| && Labelled(name) && m[p..] <= Labels(name)
    ensures WalkName(m, p).Stopped? && WalkName(m, p).at <= p + |Labels(name)|
    decreases |name|
  {
    if p < |m| {
      var next := p + 1 + |name[0]|;
      LabelsSplit(name);
      assert m[p] == m[p..][0] == |name[0]|;
      if next <= |m| {
        assert m[next..] == m[p..][next - p..];
        assert Labels(name)[next - p..] == Labels(name[1..]);
        CutWalk(m, next, name[1..]);
      }
    }
  }

  /** A walk that runs off the end was within labels: those met, the last one filled up. */
  lemma {:induction false} CutName(m: seq<byte>, p: nat) returns (name: Name)
    requires p <= |m| && WalkName(m, p).Stopped? && !WalkName(m, p).root
    ensures Labelled(name) && m[p..] <= Labels(name)
    ensures WalkName(m, p).at == p + |Labels(name)|
    decreases |m| - p
  {
    if p == |m| {
      name := [];
    } else {
      var next := p + 1 + m[p];
      if next <= |m| {
        var rest := CutName(m, next);
        name := [m[p + 1..next]] + rest;
        LabelInFront(m[p + 1..next], rest);
        assert m[p..] == [m[p]] + m[p + 1..next] + m[next..];
      } else {
        var filled := m[p + 1..] + seq(next - |m|, _ => 0);
        name := [filled] + [];
        LabelInFront(filled, []);
        assert m[p..] == [m[p]] + m[p + 1..];
      }
    }
  }

  lemma {:induction false} LabelInFront(x: seq<byte>, rest: Name)
    requires 1 <= |x| <= 63 && Labelled(rest)
    ensures Labelled([x] + rest)
    ensures Labels([x] + rest) == [|x|] + x + Labels(rest)
  {
    assert ([x] + rest)[1..] == rest;
    LabelsSplit([x] + rest);
  }

  /** Both checks on the question pass exactly when a lawful name stands at offset 12, or the message stops in one. */
  lemma {:induction false} PassesIff(m: seq<byte>)
    requires 12 <= |m|
    ensures Passes(m) <==> exists name :: Whole(m[12..], name) || CutShort(m[12..], name)
  {
    if Passes(m) {
      var w := WalkName(m, 12);
      if w.root {
        EncodingInvertsWalk(m, 12);
        assert Whole(m[12..], w.labels);
      } else {
        var name := CutName(m, 12);
        assert CutShort(m[12..], name);
      }
    }
    if name :| Whole(m[12..], name) || CutShort(m[12..], name) {
      if Whole(m[12..], name) {
        WalkInvertsEncoding(m, 12, name);
      } else {
        CutWalk(m, 12, name);
      }
    }
  }

  /** The octets of a datagram that the array takes. */
  function Taken(packet: seq<byte>): seq<byte>
  {
    if |packet| <= 300 then packet else packet[..300]
  }

  lemma {:induction false} TakenIsReceived(packet: seq<byte>, stale: Msg)
    ensures ReceivedLength(packet) == |Taken(packet)| <= 300
    ensures Received(packet, stale)[..ReceivedLength(packet)] == Taken(packet)
  {
    ReceivedOctets(packet, stale);
  }

  /**
   Exactly which datagrams are answered: queries with opcode 0 that announce a question and, behind the
   header, hold a lawful name or stop short within one. What the array held before makes no difference.
   */
  lemma {:induction false} AnsweredIff(packet: seq<byte>, stale: Msg, ip: Ip4)
    ensures ReplyTo(packet, stale, ip).Some?
       <==> && Queries(packet)
            && exists name :: Whole(Taken(packet)[12..], name) || CutShort(Taken(packet)[12..], name)
  {
    TakenIsReceived(packet, stale);
    StandardIff(Taken(packet));
    if 12 <= |packet| {
      PassesIff(Taken(packet));
    }
  }

  /** If the name is whole, however long the datagram, it is answered exactly when the name is lawful. */
  lemma {:induction false} WholeNameIsAnsweredIff(packet: seq<byte>, stale: Msg, ip: Ip4, name: Name)
    requires Queries(packet) && Encodable(name) && EncodeName(name) <= packet[12..]
    ensures ReplyTo(packet, stale, ip).Some? <==> Lawful(name)
  {
    TakenIsReceived(packet, stale);
    StandardIff(Taken(packet));
    var m := Taken(packet);
    var end := 12 + |EncodeName(name)|;
    if end <= |m| {
      assert m[12..] == packet[12..][..|m| - 12];
      PassesIffLegal(m, name);
    } else if Passes(m) {
      // The name is longer than the array, so the walk over it cannot have met its root.
      var w := WalkName(m, 12);
      WalkStaysClose(m, 12);
      EncodingInvertsWalk(m, 12);
      assert packet[12..][..|m| - 12] == m[12..];
      WalkInvertsEncoding(packet, 12, w.labels);
      WalkInvertsEncoding(packet, 12, name);
    }
  }

  /** A question's octets: name, type and class. */
  function QuestionOctets(q: Question): seq<byte>
    requires Lawful(q.name)
  {
    EncodeName(q.name) + [q.qtype / 256, q.qtype % 256, q.qclass / 256, q.qclass % 256]
  }

  /** The octets of the reply to a query with this question. */
  function Octets(packet: seq<byte>, question: seq<byte>, ip: Ip4): seq<byte>
    requires 12 <= |packet|
  {
    packet[..2] + [0x84, 0x80, 0, 1, 0, 1, 0, 0, 0, 0] + question + [0xc0, 12, 0, 1, 0, 1, 0, 0, 0, 60, 0, 4] + ip
  }

  /** What a resolver reads in the reply to a query by `packet`. */
  function Reading(packet: seq<byte>, q: Question, ip: Ip4): Message
    requires 12 <= |packet|
  {
    Message(packet[0] as int * 256 + packet[1],
            Flags(qr := true, opcode := 0, aa := true, tc := false, rd := false, ra := true, z := 0, rcode := 0),
            [q], [Record(q.name, 1, 1, 60, ip)], [], [])
  }

  /**
   Every query with a lawful name, type and class, whatever follows them and whatever the array held
   before, is answered, octet by octet; and the reply decodes to that question and one address record.
   */
  lemma {:induction false} QuestionIsAnswered(packet: seq<byte>, stale: Msg, ip: Ip4, q: Question)
    requires Queries(packet) && Lawful(q.name) && QuestionOctets(q) <= packet[12..]
    ensures ReplyTo(packet, stale, ip) == Some(Octets(packet, QuestionOctets(q), ip))
    ensures Decode(Octets(packet, QuestionOctets(q), ip)) == Some(Reading(packet, q, ip))
  {
    QuestionStands(packet, q);
    HeldIsAnswered(packet, stale, ip, q);
    QuestionIsRepeated(packet, stale, ip, q);
  }

  lemma {:induction false} HeldIsAnswered(packet: seq<byte>, stale: Msg, ip: Ip4, q: Question)
    requires Queries(packet) && Lawful(q.name) && HasQuestion(Taken(packet), q)
    ensures ReplyTo(packet, stale, ip).Some?
    ensures Decode(ReplyTo(packet, stale, ip).value) == Some(Reading(packet, q, ip))
  {
    TakenIsReceived(packet, stale);
    StandardIff(Taken(packet));
    StandardQueryIsAnswered(Received(packet, stale), ReceivedLength(packet), q, ip);
    ReadingIsExpected(packet, stale, q, ip);
  }

  lemma {:induction false} ReadingIsExpected(packet: seq<byte>, stale: Msg, q: Question, ip: Ip4)
    requires 12 <= |packet|
    ensures ExpectedReply(Field(Received(packet, stale), 0), q, ip) == Reading(packet, q, ip)
  {
    ReceivedOctets(packet, stale);
  }

  lemma {:induction false} QuestionIsRepeated(packet: seq<byte>, stale: Msg, ip: Ip4, q: Question)
    requires 12 <= |packet| && Lawful(q.name) && HasQuestion(Taken(packet), q)
    requires QuestionOctets(q) <= packet[12..]
    requires ReplyTo(packet, stale, ip).Some?
    ensures ReplyTo(packet, stale, ip) == Some(Octets(packet, QuestionOctets(q), ip))
  {
    TakenIsReceived(packet, stale);
    WalkInvertsEncoding(Taken(packet), 12, q.name);
    ReplyIsOctets(packet, stale, QuestionOctets(q), ip);
  }

  lemma {:induction false} QuestionStands(packet: seq<byte>, q: Question)
    requires 12 <= |packet| && Lawful(q.name) && QuestionOctets(q) <= packet[12..]
    ensures HasQuestion(Taken(packet), q)
  {
    var e, m := EncodeName(q.name), Taken(packet);
    var all := QuestionOctets(q);
    var p := 12 + |e|;
    assert packet[12..][..|all|] == all;
    forall k | 0 <= k < |all|
      ensures m[12 + k] == all[k]
    {
      assert packet[12 + k] == packet[12..][k];
    }
    forall k | 0 <= k < |e|
      ensures m[12..][k] == e[k]
    {
      assert m[12 + k] == all[k];
    }
    assert m[12..][..|e|] == e;
    assert m[p] == all[|e|] && m[p + 1] == all[|e| + 1] && m[p + 2] == all[|e| + 2] && m[p + 3] == all[|e| + 3];
  }

  lemma {:induction false} ReplyIsOctets(packet: seq<byte>, stale: Msg, question: seq<byte>, ip: Ip4)
    requires 12 <= |packet| && question <= packet[12..] && 12 + |question| <= 300
    ensures ReplyOctets(Received(packet, stale), 12 + |question|, ip) == Octets(packet, question, ip)
  {
    var buf, end := Received(packet, stale), 12 + |question|;
    ReceivedSlice(packet, stale, 0, 2);
    ReceivedSlice(packet, stale, 12, end);
    assert packet[12..][..|question|] == packet[12..end];
    assert buf[..2] == buf[0..2] && packet[..2] == packet[0..2];
    assert ip == [ip[0], ip[1], ip[2], ip[3]];
  }
}
