/**
 The DNS server of the access point: it answers every standard query with its own address,
 building the reply in the array that holds the query.
 */
module DnsServer {
  import opened Bytes
  import opened DnsName
  import opened DnsMessage

  /** MAX_DNS_MSG_SIZE. */
  const MSG_SIZE: nat := 300

  /** The octets of one answer: a pointer, type, class, TTL, length and address. */
  const ANSWER: nat := 16

  const TTL: uint32 := 60

  type Msg = m: seq<byte> | |m| == MSG_SIZE witness seq(MSG_SIZE, _ => 0)

  function ReceivedLength(packet: seq<byte>): nat
  {
    if MSG_SIZE <= |packet| then MSG_SIZE else |packet|
  }

  /** A query, opcode 0, with at least one question. */
  predicate IsStandardQuery(m: seq<byte>)
    requires HEADER <= |m|
  {
    var flags := DecodeFlags(m[2], m[3]);
    !flags.qr && flags.opcode == 0 && Field(m, 4) >= 1
  }

  /** Both checks on the question's name: no long label was met, and the name is not too long. */
  predicate Passes(m: seq<byte>)
  {
    var w := WalkName(m, HEADER);
    w.Stopped? && w.at - HEADER <= MAX_NAME
  }

  /** The octets of the answer: the question's name, host address, Internet class, 60 s, the address. */
  function AnswerOctets(ip: Ip4): seq<byte>
  {
    [0xc0, HEADER, 0, 1, 0, 1, 0, 0, 0, 60, 0, 4, ip[0], ip[1], ip[2], ip[3]]
  }

  /** The reply's header: the query's id, QR, AA and RA, one question and one answer. */
  function ReplyHeader(buf: Msg): seq<byte>
  {
    buf[..2] + [0x84, 0x80, 0, 1, 0, 1, 0, 0, 0, 0]
  }

  /** Where the question's type and class end, by the walk. */
  function QuestionEnd(m: seq<byte>): nat
    requires Passes(m)
  {
    WalkName(m, HEADER).at + 4
  }

  /** The octets of a reply to the question that ends at `end`. */
  function ReplyOctets(buf: Msg, end: nat, ip: Ip4): seq<byte>
    requires HEADER <= end <= MSG_SIZE
  {
    ReplyHeader(buf) + buf[HEADER..end] + AnswerOctets(ip)
  }

  /** A message that is answered. */
  predicate Answered(m: seq<byte>)
  {
    HEADER <= |m| && IsStandardQuery(m) && Passes(m)
  }

  /** The reply to the first `n` octets of the array, if there is one. */
  function Respond(buf: Msg, n: nat, ip: Ip4): Option<seq<byte>>
    requires n <= MSG_SIZE
  {
    if !Answered(buf[..n]) then None
    else
      WalkStaysClose(buf[..n], HEADER);
      Some(ReplyOctets(buf, QuestionEnd(buf[..n]), ip))
  }

  /** The first question is complete: its name is encoded at offset 12, type and class behind it. */
  ghost predicate HasQuestion(m: seq<byte>, q: Question)
  {
    && Encodable(q.name)
    && NameAt(m, HEADER, q.name)
    && HEADER + |EncodeName(q.name)| + 4 <= |m|
    && Field(m, HEADER + |EncodeName(q.name)|) == q.qtype
    && Field(m, HEADER + |EncodeName(q.name)| + 2) == q.qclass
  }

  predicate LegalName(name: Name)
  {
    Encodable(name) && ShortLabels(name) && |EncodeName(name)| <= MAX_NAME
  }

  /** A name complete in the message passes both checks exactly when RFC 1035 section 2.3.4 allows it. */
  lemma {:induction false} PassesIffLegal(m: seq<byte>, name: Name)
    requires Encodable(name) && NameAt(m, HEADER, name)
    ensures Passes(m) <==> LegalName(name)
  {
    WalkInvertsEncoding(m, HEADER, name);
  }

  lemma {:induction false} PrefixName(m: seq<byte>, r: seq<byte>, name: Name)
    requires Encodable(name) && NameAt(m, HEADER, name)
    requires var end := HEADER + |EncodeName(name)|; end <= |r| && r[HEADER..end] == m[HEADER..end]
    ensures NameAt(r, HEADER, name)
  {
    var e := EncodeName(name);
    assert r[HEADER..][..|e|] == r[HEADER..HEADER + |e|];
    assert m[HEADER..][..|e|] == m[HEADER..HEADER + |e|];
  }

  /** What a resolver reads in the reply to a query whose first question is `q`. */
  function ExpectedReply(id: uint16, q: Question, ip: Ip4): Message
  {
    Message(id,
            Flags(qr := true, opcode := 0, aa := true, tc := false, rd := false, ra := true, z := 0, rcode := 0),
            [q], [Record(q.name, 1, 1, TTL, ip)], [], [])
  }

  /** A reply taken apart: header, the query's question octets, the answer. */
  ghost predicate LaidOut(r: seq<byte>, buf: Msg, end: nat, ip: Ip4)
    requires HEADER <= end <= MSG_SIZE - ANSWER
  {
    && |r| == end + ANSWER
    && r[..HEADER] == ReplyHeader(buf)
    && r[HEADER..end] == buf[HEADER..end]
    && r[end..] == AnswerOctets(ip)
  }

  lemma {:induction false} LayOut(buf: Msg, end: nat, ip: Ip4)
    requires HEADER <= end <= MSG_SIZE - ANSWER
    ensures LaidOut(ReplyOctets(buf, end, ip), buf, end, ip)
  {
    var r := ReplyOctets(buf, end, ip);
    assert r == (ReplyHeader(buf) + buf[HEADER..end]) + AnswerOctets(ip);
  }

  lemma {:induction false} QuestionDecodes(r: seq<byte>, buf: Msg, n: nat, q: Question, ip: Ip4)
    requires n <= MSG_SIZE && HasQuestion(buf[..n], q) && LegalName(q.name)
    requires LaidOut(r, buf, HEADER + |EncodeName(q.name)| + 4, ip)
    ensures NameAt(r, HEADER, q.name)
    ensures DecodeQuestion(r, HEADER) == Some((q, HEADER + |EncodeName(q.name)| + 4))
  {
    var p := HEADER + |EncodeName(q.name)|;
    forall k | HEADER <= k < p + 4
      ensures r[k] == buf[..n][k]
    {
      assert r[HEADER..p + 4][k - HEADER] == buf[HEADER..p + 4][k - HEADER];
    }
    assert r[HEADER..p] == buf[..n][HEADER..p];
    PrefixName(buf[..n], r, q.name);
    DecodeNameInvertsEncode(r, HEADER, HEADER, q.name);
  }

  /** The octets of the record at `end`, one by one. */
  lemma {:induction false} RecordFields(r: seq<byte>, buf: Msg, end: nat, ip: Ip4)
    requires HEADER < end <= MSG_SIZE - ANSWER
    requires LaidOut(r, buf, end, ip)
    ensures r[end] == 0xc0 && r[end + 1] == HEADER
    ensures Field(r, end + 2) == 1 && Field(r, end + 4) == 1 && Field(r, end + 10) == 4
    ensures Value32(r[end + 6..end + 10]) == TTL && r[end + 12..end + 16] == ip
  {
    var t := r[end..];
    assert t == AnswerOctets(ip);
    assert r[end] == t[0] && r[end + 1] == t[1];
    assert r[end + 2] == t[2] && r[end + 3] == t[3] && r[end + 4] == t[4] && r[end + 5] == t[5];
    assert r[end + 10] == t[10] && r[end + 11] == t[11];
    assert r[end + 6..end + 10] == t[6..10] == [0, 0, 0, 60];
    assert r[end + 12..end + 16] == t[12..16] == ip;
  }

  lemma {:induction false} AnswerDecodes(r: seq<byte>, buf: Msg, end: nat, name: Name, ip: Ip4)
    requires HEADER < end <= MSG_SIZE - ANSWER
    requires LaidOut(r, buf, end, ip)
    requires LegalName(name) && NameAt(r, HEADER, name)
    ensures DecodeRecord(r, end) == Some((Record(name, 1, 1, TTL, ip), end + ANSWER))
  {
    RecordFields(r, buf, end, ip);
    PointerDecodes(r, end, name);
    LastRecordDecodes(r, end, name, ip);
  }

  /** A record's fields behind its name, which end with the message, make up the record. */
  lemma {:induction false} LastRecordDecodes(r: seq<byte>, p: nat, name: Name, ip: Ip4)
    requires DecodeName(r, p, p) == Some((name, p + 2)) && |r| == p + ANSWER
    requires Field(r, p + 2) == 1 && Field(r, p + 4) == 1 && Field(r, p + 10) == 4
    requires Value32(r[p + 6..p + 10]) == TTL && r[p + 12..p + 16] == ip
    ensures DecodeRecord(r, p) == Some((Record(name, 1, 1, TTL, ip), p + ANSWER))
  {
  }

  /** The pointer to the question's name resolves to its labels. */
  lemma {:induction false} PointerDecodes(r: seq<byte>, p: nat, name: Name)
    requires HEADER < p && p + 1 < |r| && r[p] == 0xc0 && r[p + 1] == HEADER
    requires LegalName(name) && NameAt(r, HEADER, name)
    ensures DecodeName(r, p, p) == Some((name, p + 2))
  {
    DecodeNameInvertsEncode(r, HEADER, HEADER, name);
  }

  /**
   Every standard query with a complete and legal first question, whatever follows it, is answered
   by a message that decodes, to its last octet, to that question and one address record.
   */
  lemma {:induction false} StandardQueryIsAnswered(buf: Msg, n: nat, q: Question, ip: Ip4)
    requires HEADER <= n <= MSG_SIZE && IsStandardQuery(buf[..n])
    requires HasQuestion(buf[..n], q) && LegalName(q.name)
    ensures Respond(buf, n, ip).Some?
    ensures Decode(Respond(buf, n, ip).value) == Some(ExpectedReply(Field(buf, 0), q, ip))
    ensures |Respond(buf, n, ip).value| == HEADER + |EncodeName(q.name)| + 4 + ANSWER
  {
    WalkInvertsEncoding(buf[..n], HEADER, q.name);
    var end := HEADER + |EncodeName(q.name)| + 4;
    var r := Respond(buf, n, ip).value;
    LayOut(buf, end, ip);
    QuestionDecodes(r, buf, n, q, ip);
    AnswerDecodes(r, buf, end, q.name, ip);
    ReplyHeaderDecodes(r, buf, end, ip);
    SingleQuestionAndAnswer(r, end, q, Record(q.name, 1, 1, TTL, ip));
  }

  lemma {:induction false} ReplyHeaderDecodes(r: seq<byte>, buf: Msg, end: nat, ip: Ip4)
    requires HEADER <= end <= MSG_SIZE - ANSWER && LaidOut(r, buf, end, ip)
    ensures Field(r, 0) == Field(buf, 0)
    ensures DecodeFlags(r[2], r[3]) == Flags(true, 0, true, false, false, true, 0, 0)
    ensures Field(r, 4) == Field(r, 6) == 1 && Field(r, 8) == Field(r, 10) == 0
  {
    assert forall k | 0 <= k < HEADER :: r[k] == r[..HEADER][k] == ReplyHeader(buf)[k];
  }

  lemma {:induction false} SingleQuestionAndAnswer(r: seq<byte>, end: nat, q: Question, a: Record)
    requires |r| == end + ANSWER && HEADER <= end
    requires Field(r, 4) == Field(r, 6) == 1 && Field(r, 8) == Field(r, 10) == 0
    requires DecodeQuestion(r, HEADER) == Some((q, end))
    requires DecodeRecord(r, end) == Some((a, end + ANSWER))
    ensures Decode(r) == Some(Message(Field(r, 0), DecodeFlags(r[2], r[3]), [q], [a], [], []))
  {
    assert DecodeQuestions(r, end, 0) == Some(([], end));
    assert DecodeQuestions(r, HEADER, 1) == Some(([q], end)) by {
      assert [q] + [] == [q];
    }
    assert DecodeRecords(r, end + ANSWER, 0) == Some(([], end + ANSWER));
    assert DecodeRecords(r, end, 1) == Some(([a], end + ANSWER)) by {
      assert [a] + [] == [a];
    }
  }

  /** A reply is not a query: no server of this kind answers it. */
  lemma {:induction false} RepliesAreNotAnswered(buf: Msg, n: nat, ip: Ip4, buf': Msg, n': nat, ip': Ip4)
    requires n <= MSG_SIZE && n' <= MSG_SIZE && Respond(buf, n, ip).Some?
    requires buf'[..n'] == Respond(buf, n, ip).value
    ensures Respond(buf', n', ip') == None
  {
    assert buf'[..n'][2] == 0x84;
  }

  /** The reply ends inside the array: at offset 287 or before, for every array and every length. */
  lemma {:induction false} ReplyFits(buf: Msg, n: nat, ip: Ip4)
    requires n <= MSG_SIZE && Respond(buf, n, ip).Some?
    ensures HEADER + 4 + ANSWER <= |Respond(buf, n, ip).value| <= 287 < MSG_SIZE
  {
    WalkStaysClose(buf[..n], HEADER);
  }

  /** The octets of the array past the received ones play no part in the reply. */
  ghost predicate DependsOnlyOnReceived(buf: Msg, n: nat, ip: Ip4)
    requires n <= MSG_SIZE
  {
    forall other: Msg | other[..n] == buf[..n] :: Respond(other, n, ip) == Respond(buf, n, ip)
  }

  lemma {:induction false} CompleteQuestion(buf: Msg, n: nat, ip: Ip4, other: Msg, end: nat)
    requires HEADER <= end <= n <= MSG_SIZE && other[..n] == buf[..n]
    ensures ReplyOctets(other, end, ip) == ReplyOctets(buf, end, ip)
  {
    assert other[HEADER..end] == buf[HEADER..end] by {
      SubSlice(other, 0, n, HEADER, end);
      SubSlice(buf, 0, n, HEADER, end);
    }
    assert other[..2] == buf[..2] by {
      SubSlice(other, 0, n, 0, 2);
      SubSlice(buf, 0, n, 0, 2);
    }
  }

  /** A reply repeats the array from the header to the question's end. */
  lemma {:induction false} RepeatsOctet(buf: Msg, end: nat, ip: Ip4, k: nat)
    requires HEADER <= k < end <= MSG_SIZE
    ensures k < |ReplyOctets(buf, end, ip)| && ReplyOctets(buf, end, ip)[k] == buf[k]
  {
    assert (ReplyHeader(buf) + buf[HEADER..end])[k] == buf[HEADER..end][k - HEADER];
  }

  lemma {:induction false} IncompleteQuestion(buf: Msg, n: nat, ip: Ip4, end: nat) returns (other: Msg)
    requires HEADER <= n < end <= MSG_SIZE
    ensures other[..n] == buf[..n] && ReplyOctets(other, end, ip) != ReplyOctets(buf, end, ip)
  {
    other := buf[n := if buf[n] == 0 then 1 else 0];
    RepeatsOctet(buf, end, ip, n);
    RepeatsOctet(other, end, ip, n);
  }

  /** The walk ends inside the message, with room for type and class, exactly when there is a complete question. */
  lemma {:induction false} CompleteIffWalkEnds(m: seq<byte>)
    requires Passes(m) && HEADER <= |m|
    ensures (exists q :: HasQuestion(m, q)) <==> QuestionEnd(m) <= |m|
  {
    if QuestionEnd(m) <= |m| {
      var q := WalkedQuestion(m);
    }
    if q :| HasQuestion(m, q) {
      WalkInvertsEncoding(m, HEADER, q.name);
    }
  }

  /** The question that a walk which ends inside the message met. */
  lemma {:induction false} WalkedQuestion(m: seq<byte>) returns (q: Question)
    requires Passes(m) && HEADER <= |m| && QuestionEnd(m) <= |m|
    ensures HasQuestion(m, q)
  {
    var w := WalkName(m, HEADER);
    WalkStaysClose(m, HEADER);
    EncodingInvertsWalk(m, HEADER);
    q := Question(w.labels, Field(m, w.at), Field(m, w.at + 2));
  }

  /**
   An answered message's reply is built from received octets alone exactly when the message has a
   complete first question; otherwise it repeats stale octets as the question.
   */
  lemma {:induction false} AnswersWhatWasReceivedIff(buf: Msg, n: nat, ip: Ip4)
    requires HEADER <= n <= MSG_SIZE && Respond(buf, n, ip).Some?
    ensures DependsOnlyOnReceived(buf, n, ip) <==> exists q :: HasQuestion(buf[..n], q)
  {
    CompleteIffWalkEnds(buf[..n]);
    WalkStaysClose(buf[..n], HEADER);
    var end := QuestionEnd(buf[..n]);
    if end <= n {
      forall other: Msg | other[..n] == buf[..n]
        ensures Respond(other, n, ip) == Respond(buf, n, ip)
      {
        CompleteQuestion(buf, n, ip, other, end);
      }
    } else {
      var other := IncompleteQuestion(buf, n, ip, end);
      assert Respond(other, n, ip) != Respond(buf, n, ip);
    }
  }

  /** A bare header that announces a question is answered, and what it is said to ask is stale. */
  lemma {:induction false} BareHeaderIsAnswered(buf: Msg, ip: Ip4)
    requires buf[2] == buf[3] == buf[4] == 0 && buf[5] == 1
    ensures Respond(buf, HEADER, ip).Some?
    ensures !DependsOnlyOnReceived(buf, HEADER, ip)
  {
    assert WalkName(buf[..HEADER], HEADER) == Stopped(HEADER, [], false);
    CompleteIffWalkEnds(buf[..HEADER]);
    AnswersWhatWasReceivedIff(buf, HEADER, ip);
  }

  /** The reply, if any, to a datagram that arrives when the array holds `stale`. */
  function ReplyTo(packet: seq<byte>, stale: Msg, ip: Ip4): Option<seq<byte>>
  {
    Respond(Received(packet, stale), ReceivedLength(packet), ip)
  }

  /** QR and opcode zero, and a question announced; AA, TC, RD and the second flag octet do not matter. */
  predicate Queries(m: seq<byte>)
  {
    12 <= |m| && m[2] < 8 && (m[4] != 0 || m[5] != 0)
  }

  lemma {:induction false} StandardIff(m: seq<byte>)
    ensures HEADER <= |m| && IsStandardQuery(m) <==> Queries(m)
  {
    if 12 <= |m| {
      assert m[2] / 0x80 == 1 <==> m[2] >= 0x80;
      assert m[2] < 0x80 ==> (m[2] / 8 % 0x10 == 0 <==> m[2] < 8);
    }
  }

  /** The shifts of the 16-bit flags word reach the first octet's bits. */
  lemma {:induction false} TopBits(hi: byte, lo: byte)
    ensures Value16(hi, lo) / 0x8000 % 2 == hi / 0x80
    ensures Value16(hi, lo) / 0x800 % 0x10 == hi / 8 % 0x10
  {
    var v := Value16(hi, lo);
    assert v / 0x8000 == hi / 0x80;
    assert v / 0x800 == hi / 8;
  }

  /** The record written behind the question and the header over the query's make the reply. */
  lemma {:induction false} Assemble(before: Msg, middle: Msg, after: Msg, end: nat, ip: Ip4)
    requires HEADER <= end <= MSG_SIZE - ANSWER
    requires WrittenAt(before, middle, end, AnswerOctets(ip))
    requires after[..HEADER] == ReplyHeader(middle) && after[HEADER..] == middle[HEADER..]
    ensures after[..end + ANSWER] == ReplyOctets(before, end, ip)
  {
    WrittenReads(before, middle, end, AnswerOctets(ip));
    assert middle[..2] == before[..2] by {
      SubSlice(middle, 0, end, 0, 2);
      SubSlice(before, 0, end, 0, 2);
    }
    assert after[HEADER..end] == before[HEADER..end] by {
      SubSlice(after, HEADER, MSG_SIZE - HEADER, 0, end - HEADER);
      SubSlice(middle, HEADER, MSG_SIZE - HEADER, 0, end - HEADER);
      SubSlice(middle, 0, end, HEADER, end);
      SubSlice(before, 0, end, HEADER, end);
    }
    assert after[end..end + ANSWER] == middle[end..end + ANSWER] by {
      SubSlice(after, HEADER, MSG_SIZE - HEADER, end - HEADER, end + ANSWER - HEADER);
      SubSlice(middle, HEADER, MSG_SIZE - HEADER, end - HEADER, end + ANSWER - HEADER);
    }
    assert after[..end + ANSWER] == after[..HEADER] + after[HEADER..end] + after[end..end + ANSWER];
  }

  class Server {
    const ip: Ip4

    constructor (ip: Ip4)
      ensures this.ip == ip
    {
      this.ip := ip;
    }

    /** The walk over the question's name: where it stopped, None when it was refused. */
    method WalkQuestion(msg: array<byte>, n: nat) returns (stop: Option<nat>, ghost met: Name)
      requires msg.Length == MSG_SIZE && HEADER <= n <= MSG_SIZE
      ensures stop == match WalkName(msg[..n], HEADER) { case Rejected => None case Stopped(at, _, _) => Some(at) }
      ensures WalkName(msg[..n], HEADER).Stopped? ==> WalkName(msg[..n], HEADER).labels == met
    {
      ghost var m := msg[..n];
      var p := HEADER;
      met := [];
      assert WalkName(m, HEADER) == WalkName(m, HEADER).After([]);
      while p < n
        invariant HEADER <= p
        invariant WalkName(m, HEADER) == WalkName(m, p).After(met)
        decreases n - p
      {
        assert m[p] == msg[p];
        if msg[p] == 0 {
          p := p + 1;
          return Some(p), met;
        }
        var len := msg[p];
        if len > MAX_LABEL {
          return None, met;
        }
        AfterTwice(WalkName(m, p + 1 + len), [LabelAt(m, p + 1, len)], met);
        met := met + [LabelAt(m, p + 1, len)];
        p := p + 1 + len;
      }
      return Some(p), met;
    }

    static lemma {:induction false} AfterTwice(w: Walk, x: Name, y: Name)
      ensures w.After(x).After(y) == w.After(y + x)
    {
      if w.Stopped? {
        assert y + (x + w.labels) == y + x + w.labels;
      }
    }

    /** The header checks: QR, opcode and the question count, in network order. */
    method ChecksHeader(msg: array<byte>, n: nat) returns (ok: bool)
      requires msg.Length == MSG_SIZE && n <= MSG_SIZE
      ensures ok <==> HEADER <= n && IsStandardQuery(msg[..n])
      ensures ok <==> Queries(msg[..n])
    {
      StandardIff(msg[..n]);
      if n < HEADER {
        return false;
      }
      var flags := Value16(msg[2], msg[3]);
      var questions := Value16(msg[4], msg[5]);
      assert Field(msg[..n], 4) == questions;
      TopBits(msg[2], msg[3]);
      if flags / 0x8000 % 2 == 1 {
        return false;
      }
      if flags / 0x800 % 0x10 != 0 {
        return false;
      }
      return questions >= 1;
    }

    /** dns_server_process: one datagram, answered in the array it is copied into. */
    method Process(packet: seq<byte>, msg: array<byte>) returns (sent: Option<seq<byte>>)
      requires msg.Length == MSG_SIZE
      modifies msg
      ensures sent == ReplyTo(packet, old(msg[..]), ip)
    {
      var n := ReceivedLength(packet);
      forall k | 0 <= k < n {
        msg[k] := packet[k];
      }
      ghost var buf: Msg := msg[..];
      assert buf == Received(packet, old(msg[..]));
      assert msg[..n] == buf[..n];
      var ok := ChecksHeader(msg, n);
      if !ok {
        return None;
      }
      var stop, _ := WalkQuestion(msg, n);
      if stop == None || stop.value - HEADER > MAX_NAME {
        return None;
      }
      WalkStaysClose(buf[..n], HEADER);
      var len := WriteAnswer(msg, stop.value + 4);
      sent := Some(msg[..len]);
    }

    /** The answer behind the question, then the header over the query's. */
    method WriteAnswer(msg: array<byte>, end: nat) returns (len: nat)
      requires msg.Length == MSG_SIZE && HEADER <= end <= MSG_SIZE - ANSWER
      modifies msg
      ensures len == end + ANSWER
      ensures msg[..len] == ReplyOctets(old(msg[..]), end, ip)
    {
      ghost var before := msg[..];
      WriteRecord(msg, end);
      ghost var middle := msg[..];
      WriteHeader(msg);
      len := end + ANSWER;
      Assemble(before, middle, msg[..], end, ip);
    }

    method WriteRecord(msg: array<byte>, end: nat)
      requires msg.Length == MSG_SIZE && end <= MSG_SIZE - ANSWER
      modifies msg
      ensures WrittenAt(old(msg[..]), msg[..], end, AnswerOctets(ip))
    {
      ghost var s0 := msg[..];
      Write4(msg, end, 0xc0, HEADER, 0, 1);
      ghost var s1 := msg[..];
      Write4(msg, end + 4, 0, 1, 0, 0);
      ghost var s2 := msg[..];
      Write4(msg, end + 8, 0, 60, 0, 4);
      ghost var s3 := msg[..];
      Write4(msg, end + 12, ip[0], ip[1], ip[2], ip[3]);
      WrittenThen(s0, s1, s2, end, [0xc0, HEADER, 0, 1], [0, 1, 0, 0]);
      WrittenThen(s0, s2, s3, end, [0xc0, HEADER, 0, 1] + [0, 1, 0, 0], [0, 60, 0, 4]);
      WrittenThen(s0, s3, msg[..], end, [0xc0, HEADER, 0, 1] + [0, 1, 0, 0] + [0, 60, 0, 4],
                  [ip[0], ip[1], ip[2], ip[3]]);
      assert AnswerOctets(ip) == [0xc0, HEADER, 0, 1] + [0, 1, 0, 0] + [0, 60, 0, 4] + [ip[0], ip[1], ip[2], ip[3]];
    }

    /** Four of the `*answer_ptr++ =` writes. */
    method Write4(msg: array<byte>, at: nat, a: byte, b: byte, c: byte, d: byte)
      requires at + 4 <= msg.Length
      modifies msg
      ensures WrittenAt(old(msg[..]), msg[..], at, [a, b, c, d])
    {
      ghost var before := msg[..];
      msg[at] := a;
      msg[at + 1] := b;
      msg[at + 2] := c;
      msg[at + 3] := d;
      WrittenPointwise(before, msg[..], at, [a, b, c, d]);
    }

    method WriteHeader(msg: array<byte>)
      requires msg.Length == MSG_SIZE
      modifies msg
      ensures msg[..HEADER] == ReplyHeader(old(msg[..]))
      ensures msg[HEADER..] == old(msg[HEADER..])
    {
      msg[2], msg[3] := 0x84, 0x80;
      msg[4], msg[5] := 0, 1;
      msg[6], msg[7] := 0, 1;
      msg[8], msg[9] := 0, 0;
      msg[10], msg[11] := 0, 0;
    }
  }
}
