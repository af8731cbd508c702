/** Octets and the values built from them, shared by all the other modules. */
module Bytes {

  type byte = x: int | 0 <= x < 0x100
  type uint16 = x: int | 0 <= x < 0x1_0000
  type uint32 = x: int | 0 <= x < 0x1_0000_0000

  datatype Option<+T> = None | Some(value: T)

  /** An IPv4 address, in network order. */
  type Ip4 = a: seq<byte> | |a| == 4 witness [0, 0, 0, 0]

  /** pbuf_copy_partial: a buffer after the datagram's octets, as many as fit, are copied to its front. */
  function Received(packet: seq<byte>, buffer: seq<byte>): (r: seq<byte>)
    ensures |r| == |buffer|
  {
    if |buffer| <= |packet| then packet[..|buffer|] else packet + buffer[|packet|..]
  }

  /** Octet by octet: the datagram's as far as it reaches, behind it what the buffer held. */
  lemma {:induction false} ReceivedOctets(packet: seq<byte>, buffer: seq<byte>)
    ensures forall k | 0 <= k < |buffer| :: Received(packet, buffer)[k] == if k < |packet| then packet[k] else buffer[k]
  {
  }

  /** Any part of the buffer that the datagram covers is that part of the datagram. */
  lemma {:induction false} ReceivedSlice(packet: seq<byte>, buffer: seq<byte>, lo: nat, hi: nat)
    requires lo <= hi <= |packet| && hi <= |buffer|
    ensures Received(packet, buffer)[lo..hi] == packet[lo..hi]
  {
    ReceivedOctets(packet, buffer);
  }

  /** The octets of a 32-bit value, most significant first. */
  function BigEndian32(v: uint32): (s: seq<byte>)
    ensures |s| == 4
  {
    [v / 0x100_0000, v / 0x1_0000 % 0x100, v / 0x100 % 0x100, v % 0x100]
  }

  /** The 16-bit value whose most significant octet comes first. */
  function Value16(hi: byte, lo: byte): uint16
  {
    hi as int * 0x100 + lo
  }

  function Value32(s: seq<byte>): uint32
    requires |s| == 4
  {
    s[0] as int * 0x100_0000 + s[1] as int * 0x1_0000 + s[2] as int * 0x100 + s[3]
  }

  /** A 32-bit value is read back from its octets. */
  lemma {:induction false} BigEndian32RoundTrip(v: uint32)
    ensures Value32(BigEndian32(v)) == v
  {
    assert v == v / 0x100 * 0x100 + v % 0x100;
    assert v / 0x100 == v / 0x1_0000 * 0x100 + v / 0x100 % 0x100;
    assert v / 0x1_0000 == v / 0x100_0000 * 0x100 + v / 0x1_0000 % 0x100;
  }

  /** A slice of a slice. */
  lemma {:induction false} SubSlice<T>(s: seq<T>, at: nat, n: nat, lo: nat, hi: nat)
    requires lo <= hi <= n && at + n <= |s|
    ensures s[at..at + n][lo..hi] == s[at + lo..at + hi]
  {
    var inner := s[at..at + n];
    forall k | 0 <= k < hi - lo
      ensures inner[lo..hi][k] == s[at + lo..at + hi][k]
    {
      assert inner[lo..hi][k] == inner[lo + k];
    }
    assert |inner[lo..hi]| == |s[at + lo..at + hi]|;
  }

  /** The buffer `after` is `before` with `data` written at `at`, and nothing else changed. */
  ghost predicate WrittenAt<T>(before: seq<T>, after: seq<T>, at: nat, data: seq<T>)
  {
    && at + |data| <= |before|
    && after == before[..at] + data + before[at + |data|..]
  }

  lemma {:induction false} WrittenPointwise<T>(before: seq<T>, after: seq<T>, at: nat, data: seq<T>)
    requires at + |data| <= |before| == |after|
    requires forall k | 0 <= k < |before| && !(at <= k < at + |data|) :: after[k] == before[k]
    requires forall k | 0 <= k < |data| :: after[at + k] == data[k]
    ensures WrittenAt(before, after, at, data)
  {
    assert forall k | at <= k < at + |data| :: after[k] == data[k - at];
  }

  /** Two writes in a row are one write of both. */
  lemma {:induction false} WrittenThen<T>(s0: seq<T>, s1: seq<T>, s2: seq<T>, at: nat, x: seq<T>, y: seq<T>)
    requires WrittenAt(s0, s1, at, x) && WrittenAt(s1, s2, at + |x|, y)
    ensures WrittenAt(s0, s2, at, x + y)
  {
    var end := at + |x| + |y|;
    assert s1[..at + |x|] == s0[..at] + x;
    assert s1[end..] == s0[end..];
    assert s2 == (s0[..at] + x) + y + s0[end..];
    assert s2 == s0[..at] + (x + y) + s0[end..];
  }

  /** What such a buffer reads before, at and behind the written part. */
  lemma {:induction false} WrittenReads<T>(before: seq<T>, after: seq<T>, at: nat, data: seq<T>)
    requires WrittenAt(before, after, at, data)
    ensures |after| == |before|
    ensures after[..at] == before[..at] && after[at..at + |data|] == data
  {
  }
}
