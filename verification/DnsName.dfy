/** Domain names in their RFC 1035 wire form, and the server's walk over one. */
module DnsName {
  import opened Bytes

  /** A name is its labels, the root's empty one left out. */
  type Name = seq<seq<byte>>

  /** The longest label and the longest encoded name (RFC 1035 section 2.3.4). */
  const MAX_LABEL: byte := 63
  const MAX_NAME: nat := 255

  /** Every label has a nonzero length octet. */
  predicate Encodable(name: Name)
  {
    forall k | 0 <= k < |name| :: 1 <= |name[k]| < 0x100
  }

  predicate ShortLabels(name: Name)
  {
    forall k | 0 <= k < |name| :: |name[k]| <= MAX_LABEL
  }

  /** Length-prefixed labels and the root's zero octet (section 3.1). */
  function EncodeName(name: Name): (s: seq<byte>)
    requires Encodable(name)
    ensures |s| > 0
  {
    if name == [] then [0] else [|name[0]|] + name[0] + EncodeName(name[1..])
  }

  /** How the walk over a name ends: refused at a long label, or where it stopped, and why. */
  datatype Walk = Rejected | Stopped(at: nat, labels: Name, root: bool)
  {
    /** The walk that met `before` first and then went on like this one. */
    function After(before: Name): Walk
    {
      match this
      case Rejected => Rejected
      case Stopped(at, labels, root) => Stopped(at, before + labels, root)
    }
  }

  /** As much of the label of length `len` at `p` as was received. */
  function LabelAt(m: seq<byte>, p: nat, len: byte): seq<byte>
    requires p <= |m|
  {
    if p + len <= |m| then m[p..p + len] else m[p..]
  }

  /** The walk from offset `p` over the octets received. */
  function WalkName(m: seq<byte>, p: nat): Walk
    decreases |m| - p
  {
    if |m| <= p then Stopped(p, [], false)
    else if m[p] == 0 then Stopped(p + 1, [], true)
    else if m[p] > MAX_LABEL then Rejected
    else WalkName(m, p + 1 + m[p]).After([LabelAt(m, p + 1, m[p])])
  }

  /** The octets from `p` on begin with the encoded name. */
  ghost predicate NameAt(m: seq<byte>, p: nat, name: Name)
    requires Encodable(name)
  {
    p <= |m| && EncodeName(name) <= m[p..]
  }

  lemma {:induction false} NameSplit(m: seq<byte>, p: nat, name: Name)
    requires Encodable(name) && name != []
    ensures NameAt(m, p, name)
       <==> && p + 1 + |name[0]| <= |m|
            && m[p] == |name[0]|
            && m[p + 1..p + 1 + |name[0]|] == name[0]
            && NameAt(m, p + 1 + |name[0]|, name[1..])
  {
    var n := 1 + |name[0]|;
    var rest := EncodeName(name[1..]);
    var whole := EncodeName(name);
    assert whole == [|name[0]|] + name[0] + rest;
    assert whole[0] == |name[0]| && whole[1..n] == name[0] && whole[n..] == rest;
    if p + n <= |m| {
      var s := m[p..];
      assert s[n..] == m[p + n..];
      assert s[0] == m[p];
      assert s[1..n] == m[p + 1..p + n];
      if |whole| <= |s| {
        assert s[..|whole|] == [s[0]] + s[1..n] + s[n..|whole|];
        assert s[n..][..|rest|] == s[n..|whole|];
        assert whole == s[..|whole|] ==> s[0] == whole[0] && s[1..n] == whole[1..n] && s[n..|whole|] == whole[n..];
      }
    }
  }

  lemma {:induction false} RootSplit(m: seq<byte>, p: nat)
    ensures NameAt(m, p, []) <==> p < |m| && m[p] == 0
  {
    if p < |m| {
      assert m[p..][0] == m[p];
      assert m[p..][..1] == [m[p]];
    }
  }

  /** One label of the walk over an encoded name. */
  lemma {:induction false} WalkStep(m: seq<byte>, p: nat, name: Name)
    requires Encodable(name) && name != [] && NameAt(m, p, name)
    ensures NameAt(m, p + 1 + |name[0]|, name[1..])
    ensures WalkName(m, p) == if |name[0]| > MAX_LABEL then Rejected
                              else WalkName(m, p + 1 + |name[0]|).After([name[0]])
  {
    NameSplit(m, p, name);
    assert LabelAt(m, p + 1, m[p]) == name[0];
  }

  /**
   The walk over a name that is complete in the message: with every label within 63 octets it
   meets exactly the name's labels and stops just past the root; otherwise it is refused.
   */
  lemma {:induction false} WalkInvertsEncoding(m: seq<byte>, p: nat, name: Name)
    requires Encodable(name) && NameAt(m, p, name)
    ensures WalkName(m, p)
         == if ShortLabels(name) then Stopped(p + |EncodeName(name)|, name, true) else Rejected
    decreases |name|
  {
    if name == [] {
      RootSplit(m, p);
    } else {
      WalkStep(m, p, name);
      WalkInvertsEncoding(m, p + 1 + |name[0]|, name[1..]);
      ShortLabelsSplit(name);
      assert [name[0]] + name[1..] == name;
    }
  }

  lemma {:induction false} ShortLabelsSplit(name: Name)
    requires name != []
    ensures ShortLabels(name) <==> |name[0]| <= MAX_LABEL && ShortLabels(name[1..])
  {
    forall k | 1 <= k < |name| && ShortLabels(name[1..])
      ensures |name[k]| <= MAX_LABEL
    {
      assert name[k] == name[1..][k - 1];
    }
  }

  /** And a walk that stops at a root octet has walked over the encoding of the labels it met. */
  lemma {:induction false} EncodingInvertsWalk(m: seq<byte>, p: nat)
    requires WalkName(m, p).Stopped? && WalkName(m, p).root
    ensures var w := WalkName(m, p);
            Encodable(w.labels) && ShortLabels(w.labels) && NameAt(m, p, w.labels)
            && w.at == p + |EncodeName(w.labels)|
    decreases |m| - p
  {
    var w := WalkName(m, p);
    if m[p] == 0 {
      RootSplit(m, p);
    } else {
      var next := p + 1 + m[p];
      EncodingInvertsWalk(m, next);
      var v := WalkName(m, next);
      assert next <= |m|;
      assert w.labels[1..] == v.labels;
      assert w.labels[0] == m[p + 1..next];
      NameSplit(m, p, w.labels);
    }
  }

  /** Where a walk stops: at a root octet inside the message, or less than one label past its end. */
  lemma {:induction false} WalkStaysClose(m: seq<byte>, p: nat)
    requires p <= |m| + MAX_LABEL && WalkName(m, p).Stopped?
    ensures var w := WalkName(m, p);
            p <= w.at <= |m| + MAX_LABEL && (if w.root then w.at <= |m| else |m| <= w.at)
    decreases |m| - p
  {
    if p < |m| && m[p] != 0 {
      WalkStaysClose(m, p + 1 + m[p]);
    }
  }
}
