/** The DNS message of RFC 1035 section 4.1, decoded, compression pointers included. */
module DnsMessage {
  import opened Bytes
  import opened DnsName

  const HEADER: nat := 12

  datatype Flags = Flags(qr: bool, opcode: nat, aa: bool, tc: bool, rd: bool, ra: bool, z: nat, rcode: nat)

  datatype Question = Question(name: Name, qtype: uint16, qclass: uint16)

  datatype Record = Record(name: Name, rtype: uint16, rclass: uint16, ttl: uint32, rdata: seq<byte>)

  datatype Message = Message(id: uint16, flags: Flags, questions: seq<Question>,
                             answers: seq<Record>, authorities: seq<Record>, additionals: seq<Record>)

  /** The two flag octets of section 4.1.1, each from its most significant bit down. */
  function DecodeFlags(hi: byte, lo: byte): Flags
  {
    Flags(hi / 0x80 == 1, hi / 8 % 0x10, hi / 4 % 2 == 1, hi / 2 % 2 == 1, hi % 2 == 1,
          lo / 0x80 == 1, lo / 0x10 % 8, lo % 0x10)
  }

  function Field(m: seq<byte>, p: nat): uint16
    requires p + 2 <= |m|
  {
    Value16(m[p], m[p + 1])
  }

  /**
   A name at `p` and the offset behind it. A pointer must lead before `start`, where the labels
   being read began: to a prior occurrence (section 4.1.4).
   */
  function DecodeName(m: seq<byte>, p: nat, start: nat): Option<(Name, nat)>
    decreases start, |m| - p
  {
    if |m| <= p then None
    else if m[p] == 0 then Some(([], p + 1))
    else if m[p] <= MAX_LABEL then
      if |m| < p + 1 + m[p] then None
      else
        match DecodeName(m, p + 1 + m[p], start)
        case None => None
        case Some((rest, next)) => Some(([m[p + 1..p + 1 + m[p]]] + rest, next))
    else if m[p] < 0xc0 || |m| <= p + 1 then None
    else
      var target := (m[p] - 0xc0) as int * 0x100 + m[p + 1];
      if start <= target then None
      else
        match DecodeName(m, target, target)
        case None => None
        case Some((name, _)) => Some((name, p + 2))
  }

  function DecodeQuestion(m: seq<byte>, p: nat): Option<(Question, nat)>
  {
    match DecodeName(m, p, p)
    case None => None
    case Some((name, q)) =>
      if |m| < q + 4 then None else Some((Question(name, Field(m, q), Field(m, q + 2)), q + 4))
  }

  function DecodeQuestions(m: seq<byte>, p: nat, count: nat): Option<(seq<Question>, nat)>
    decreases count
  {
    if count == 0 then Some(([], p))
    else
      match DecodeQuestion(m, p)
      case None => None
      case Some((first, q)) =>
        match DecodeQuestions(m, q, count - 1)
        case None => None
        case Some((rest, next)) => Some(([first] + rest, next))
  }

  function DecodeRecord(m: seq<byte>, p: nat): Option<(Record, nat)>
  {
    match DecodeName(m, p, p)
    case None => None
    case Some((name, q)) =>
      if |m| < q + 10 || |m| < q + 10 + Field(m, q + 8) then None
      else
        var end := q + 10 + Field(m, q + 8);
        Some((Record(name, Field(m, q), Field(m, q + 2), Value32(m[q + 4..q + 8]), m[q + 10..end]), end))
  }

  function DecodeRecords(m: seq<byte>, p: nat, count: nat): Option<(seq<Record>, nat)>
    decreases count
  {
    if count == 0 then Some(([], p))
    else
      match DecodeRecord(m, p)
      case None => None
      case Some((first, q)) =>
        match DecodeRecords(m, q, count - 1)
        case None => None
        case Some((rest, next)) => Some(([first] + rest, next))
  }

  /** A whole message: header, the four sections, and nothing behind them. */
  function Decode(m: seq<byte>): Option<Message>
  {
    if |m| < HEADER then None
    else
      match DecodeQuestions(m, HEADER, Field(m, 4))
      case None => None
      case Some((questions, p)) =>
        match DecodeRecords(m, p, Field(m, 6))
        case None => None
        case Some((answers, q)) =>
          match DecodeRecords(m, q, Field(m, 8))
          case None => None
          case Some((authorities, r)) =>
            match DecodeRecords(m, r, Field(m, 10))
            case None => None
            case Some((additionals, end)) =>
              if end != |m| then None
              else Some(Message(Field(m, 0), DecodeFlags(m[2], m[3]), questions, answers, authorities, additionals))
  }

  /** Reading a name undoes writing it. */
  lemma {:induction false} DecodeNameInvertsEncode(m: seq<byte>, p: nat, start: nat, name: Name)
    requires Encodable(name) && ShortLabels(name) && NameAt(m, p, name)
    ensures DecodeName(m, p, start) == Some((name, p + |EncodeName(name)|))
    decreases |name|
  {
    if name == [] {
      RootSplit(m, p);
    } else {
      NameSplit(m, p, name);
      DecodeNameInvertsEncode(m, p + 1 + |name[0]|, start, name[1..]);
      assert name == [name[0]] + name[1..];
    }
  }
}
