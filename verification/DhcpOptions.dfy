/**
 DHCP options (RFC 2132 section 2): a list of code/length/data items closed by END,
 searched and written in place in the message buffer.
 */
module DhcpOptions {
  import opened Bytes

  const PAD: byte := 0
  const END: byte := 255

  /** The number of octets `OptFind` is willing to walk: 312 less the magic cookie. */
  const AREA: nat := 308

  datatype Opt = Opt(code: byte, data: seq<byte>)

  /** An option that can be written: its code is not the list's terminator, its length fits one octet. */
  predicate Writable(o: Opt)
  {
    o.code != END && |o.data| < 0x100
  }

  predicate AllWritable(list: seq<Opt>)
  {
    forall k | 0 <= k < |list| :: Writable(list[k])
  }

  function EncodeOpt(o: Opt): (s: seq<byte>)
    requires Writable(o)
    ensures |s| == 2 + |o.data|
  {
    [o.code, |o.data|] + o.data
  }

  function Encode(list: seq<Opt>): seq<byte>
    requires AllWritable(list)
  {
    if list == [] then [] else EncodeOpt(list[0]) + Encode(list[1..])
  }

  /** The scan of an option area from index `i`: where the first item with code `cmd` begins. */
  function Find(a: seq<byte>, i: nat, cmd: byte): (r: Option<nat>)
    ensures r.Some? ==> i <= r.value < |a| && a[r.value] == cmd && cmd != END
    decreases |a| - i
  {
    if |a| <= i || a[i] == END then None
    else if a[i] == cmd then Some(i)
    else Find(a, i + 2 + LengthAt(a, i + 1), cmd)
  }

  /**
   The length octet at `j`. A code in the very last octet has its length one past the area;
   whatever is there, the scan steps beyond the area and stops.
   */
  function LengthAt(a: seq<byte>, j: nat): byte
  {
    if j < |a| then a[j] else 0
  }

  /** RFC 2132 section 3's reading of an option area: PAD is one octet, every other item has a length. */
  function Decode(a: seq<byte>, i: nat): Option<seq<Opt>>
    decreases |a| - i
  {
    if |a| <= i then None
    else if a[i] == END then Some([])
    else if a[i] == PAD then Decode(a, i + 1)
    else if |a| <= i + 1 || |a| < i + 2 + a[i + 1] then None
    else
      match Decode(a, i + 2 + a[i + 1])
      case None => None
      case Some(rest) => Some([Opt(a[i], a[i + 2..i + 2 + a[i + 1]])] + rest)
  }

  /** The index in `list` of its first option with the given code, `|list|` when there is none. */
  function FirstWithCode(list: seq<Opt>, cmd: byte): (k: nat)
    ensures k <= |list|
    ensures forall j | 0 <= j < k :: list[j].code != cmd
    ensures k < |list| ==> list[k].code == cmd
  {
    if list == [] || list[0].code == cmd then 0 else 1 + FirstWithCode(list[1..], cmd)
  }

  /** The octets that the first `k` options of a list take. */
  function Offset(list: seq<Opt>, k: nat): nat
    requires k <= |list|
  {
    if k == 0 then 0 else 2 + |list[0].data| + Offset(list[1..], k - 1)
  }

  /** The option `o` starts at `at`, all of it inside the area. */
  predicate StandsAt(a: seq<byte>, at: nat, o: Opt)
  {
    && at + 2 + |o.data| < |a|
    && a[at] == o.code
    && a[at + 1] == |o.data|
    && a[at + 2..at + 2 + |o.data|] == o.data
  }

  /** The list stands at `i`, item after item, and END behind it. */
  predicate HoldsAt(a: seq<byte>, i: nat, list: seq<Opt>)
    decreases |list|
  {
    if list == [] then i < |a| && a[i] == END
    else StandsAt(a, i, list[0]) && HoldsAt(a, i + 2 + |list[0].data|, list[1..])
  }

  lemma {:induction false} StandsIffEncoded(a: seq<byte>, i: nat, o: Opt)
    requires Writable(o) && i + 2 + |o.data| < |a|
    ensures StandsAt(a, i, o) <==> a[i..i + 2 + |o.data|] == EncodeOpt(o)
  {
    var s := a[i..i + 2 + |o.data|];
    assert s[0] == a[i] && s[1] == a[i + 1] && s[2..] == a[i + 2..i + 2 + |o.data|];
    assert s == [s[0], s[1]] + s[2..];
  }

  /** That is so exactly when the octets from `i` on are the encoded list, END, and anything. */
  lemma {:induction false} HoldsIffEncoded(a: seq<byte>, i: nat, list: seq<Opt>)
    requires AllWritable(list) && i <= |a|
    ensures HoldsAt(a, i, list) <==> Encode(list) + [END] <= a[i..]
    decreases |list|
  {
    if list == [] {
      assert Encode(list) + [END] == [END];
    } else {
      var next := i + 2 + |list[0].data|;
      var rest := Encode(list[1..]) + [END];
      EncodeFirst(list);
      ItemThenRest(a, i, list[0], rest);
      if next < |a| {
        HoldsIffEncoded(a, next, list[1..]);
        assert HoldsAt(a, i, list) <==> StandsAt(a, i, list[0]) && rest <= a[next..];
      } else {
        assert !StandsAt(a, i, list[0]);
      }
    }
  }

  lemma {:induction false} EncodeFirst(list: seq<Opt>)
    requires AllWritable(list) && list != []
    ensures Encode(list) + [END] == EncodeOpt(list[0]) + (Encode(list[1..]) + [END])
  {
  }

  lemma {:induction false} ItemThenRest(a: seq<byte>, i: nat, o: Opt, rest: seq<byte>)
    requires Writable(o) && i <= |a| && rest != []
    ensures var next := i + 2 + |o.data|;
            EncodeOpt(o) + rest <= a[i..] <==> StandsAt(a, i, o) && rest <= a[next..]
  {
    var next := i + 2 + |o.data|;
    SplitPrefix(EncodeOpt(o), rest, a[i..]);
    if next < |a| {
      StandsIffEncoded(a, i, o);
      assert a[i..][..next - i] == a[i..next] && a[i..][next - i..] == a[next..];
    }
  }

  lemma {:induction false} SplitPrefix(x: seq<byte>, y: seq<byte>, s: seq<byte>)
    ensures x + y <= s <==> |x| <= |s| && s[..|x|] == x && y <= s[|x|..]
  {
    if |x| + |y| <= |s| {
      assert s[..|x| + |y|] == s[..|x|] + s[|x|..][..|y|];
    }
  }

  /**
   The scan finds the first option with the code, and finds nothing exactly when there is none,
   whatever the data octets are.
   */
  lemma {:induction false} FindInList(a: seq<byte>, i: nat, list: seq<Opt>, cmd: byte)
    requires AllWritable(list)
    requires HoldsAt(a, i, list)
    ensures var k := FirstWithCode(list, cmd);
            if k == |list| then Find(a, i, cmd) == None
            else Find(a, i, cmd) == Some(i + Offset(list, k)) && StandsAt(a, i + Offset(list, k), list[k])
    decreases |list|
  {
    if list != [] && list[0].code != cmd {
      var next := i + 2 + |list[0].data|;
      FindInList(a, next, list[1..], cmd);
      assert Find(a, i, cmd) == Find(a, next, cmd);
      assert FirstWithCode(list, cmd) == 1 + FirstWithCode(list[1..], cmd);
    }
  }

  lemma {:induction false} FindAbsentIff(a: seq<byte>, i: nat, list: seq<Opt>, cmd: byte)
    requires AllWritable(list)
    requires HoldsAt(a, i, list)
    ensures Find(a, i, cmd) == None <==> forall o | o in list :: o.code != cmd
  {
    FindInList(a, i, list, cmd);
    var k := FirstWithCode(list, cmd);
    if k < |list| {
      assert list[k] in list;
    }
  }

  /** Decoding undoes encoding, whatever follows END, for lists without PAD. */
  lemma {:induction false} DecodeInvertsEncode(a: seq<byte>, i: nat, list: seq<Opt>)
    requires AllWritable(list)
    requires forall o | o in list :: o.code != PAD
    requires HoldsAt(a, i, list)
    ensures Decode(a, i) == Some(list)
    decreases |list|
  {
    if list != [] {
      assert list[0] in list;
      DecodeInvertsEncode(a, i + 2 + |list[0].data|, list[1..]);
      assert list == [list[0]] + list[1..];
    }
  }

  /** No item boundary from `i` up to END carries PAD. */
  predicate PadFree(a: seq<byte>, i: nat)
    decreases |a| - i
  {
    |a| <= i || a[i] == END || (a[i] != PAD && PadFree(a, i + 2 + LengthAt(a, i + 1)))
  }

  /** On every area that RFC 2132 can read and that has no PAD, the octets are the decoded list's encoding. */
  lemma {:induction false} EncodeInvertsDecode(a: seq<byte>, i: nat)
    requires i <= |a|
    requires Decode(a, i).Some? && PadFree(a, i)
    ensures AllWritable(Decode(a, i).value)
    ensures HoldsAt(a, i, Decode(a, i).value)
    decreases |a| - i
  {
    if a[i] != END {
      var next := i + 2 + a[i + 1];
      EncodeInvertsDecode(a, next);
      var list, rest := Decode(a, i).value, Decode(a, next).value;
      assert list[1..] == rest && list[0] == Opt(a[i], a[i + 2..next]);
      assert next < |a|;
    }
  }

  /** From `i` on, the search returns the first option of the list with the code, or nothing if there is none. */
  predicate FindsFirst(a: seq<byte>, i: nat, list: seq<Opt>, cmd: byte)
  {
    var k := FirstWithCode(list, cmd);
    match Find(a, i, cmd)
    case None => k == |list|
    case Some(at) => k < |list| && StandsAt(a, at, list[k])
  }

  /** The search and RFC 2132 agree on the code's first option from `i` on. */
  predicate Agrees(a: seq<byte>, i: nat, cmd: byte)
    requires Decode(a, i).Some?
  {
    FindsFirst(a, i, Decode(a, i).value, cmd)
  }

  /** No item boundary from `i` up to the first item with the code, or END, carries PAD. */
  predicate NoPadBefore(a: seq<byte>, i: nat, cmd: byte)
    decreases |a| - i
  {
    |a| <= i || a[i] == END || a[i] == cmd || (a[i] != PAD && NoPadBefore(a, i + 2 + LengthAt(a, i + 1), cmd))
  }

  /** What RFC 2132 reads at an item that is neither PAD nor END. */
  lemma {:induction false} DecodeItem(a: seq<byte>, i: nat)
    requires Decode(a, i).Some? && a[i] != END && a[i] != PAD
    ensures var next := i + 2 + a[i + 1];
            && next < |a| && Decode(a, next).Some?
            && StandsAt(a, i, Opt(a[i], a[i + 2..next]))
            && Decode(a, i).value == [Opt(a[i], a[i + 2..next])] + Decode(a, next).value
  {
  }

  /** An item in front: found if it has the code, passed over if not. */
  lemma {:induction false} FindsFirstCons(a: seq<byte>, i: nat, o: Opt, rest: seq<Opt>, cmd: byte)
    requires StandsAt(a, i, o) && o.code != END
    requires o.code == cmd || FindsFirst(a, i + 2 + |o.data|, rest, cmd)
    ensures FindsFirst(a, i, [o] + rest, cmd)
  {
    var list := [o] + rest;
    assert list[1..] == rest;
    if o.code != cmd {
      assert Find(a, i, cmd) == Find(a, i + 2 + |o.data|, cmd);
      assert FirstWithCode(list, cmd) == 1 + FirstWithCode(rest, cmd);
    }
  }

  /** For one code the search agrees with RFC 2132 as soon as no PAD comes before the code's first option. */
  lemma {:induction false} AgreesBeforePad(a: seq<byte>, i: nat, cmd: byte)
    requires Decode(a, i).Some? && cmd != PAD && NoPadBefore(a, i, cmd)
    ensures Agrees(a, i, cmd)
    decreases |a| - i
  {
    if a[i] != END {
      DecodeItem(a, i);
      var next := i + 2 + a[i + 1];
      if a[i] != cmd {
        AgreesBeforePad(a, next, cmd);
      }
      FindsFirstCons(a, i, Opt(a[i], a[i + 2..next]), Decode(a, next).value, cmd);
    }
  }

  /** RFC 2132 never reads PAD as an option. */
  lemma {:induction false} PadIsNoOption(a: seq<byte>, i: nat)
    requires Decode(a, i).Some?
    ensures FirstWithCode(Decode(a, i).value, PAD) == |Decode(a, i).value|
    decreases |a| - i
  {
    if a[i] == PAD {
      PadIsNoOption(a, i + 1);
    } else if a[i] != END {
      var next := i + 2 + a[i + 1];
      PadIsNoOption(a, next);
      assert Decode(a, i).value[1..] == Decode(a, next).value;
    }
  }

  /** The search takes a PAD at an item boundary for an option. */
  lemma {:induction false} PadIsFoundIff(a: seq<byte>, i: nat)
    ensures Find(a, i, PAD) == None <==> PadFree(a, i)
    decreases |a| - i
  {
    if i < |a| && a[i] != END && a[i] != PAD {
      PadIsFoundIff(a, i + 2 + LengthAt(a, i + 1));
    }
  }

  lemma {:induction false} PadFreeBefore(a: seq<byte>, i: nat, cmd: byte)
    requires PadFree(a, i)
    ensures NoPadBefore(a, i, cmd)
    decreases |a| - i
  {
    if i < |a| && a[i] != END {
      PadFreeBefore(a, i + 2 + LengthAt(a, i + 1), cmd);
    }
  }

  /** On an area that RFC 2132 can read, the search agrees with it for every code exactly when there is no PAD. */
  lemma {:induction false} AgreesIffPadFree(a: seq<byte>)
    requires Decode(a, 0).Some?
    ensures (forall cmd: byte :: Agrees(a, 0, cmd)) <==> PadFree(a, 0)
  {
    PadIsNoOption(a, 0);
    PadIsFoundIff(a, 0);
    if PadFree(a, 0) {
      forall cmd: byte
        ensures Agrees(a, 0, cmd)
      {
        if cmd != PAD {
          PadFreeBefore(a, 0, cmd);
          AgreesBeforePad(a, 0, cmd);
        }
      }
    } else {
      assert !Agrees(a, 0, PAD);
    }
  }

  /** With a PAD in front it can fail for an option's code: an option the RFC reads is not found. */
  lemma {:induction false} PadHidesAnOption()
    ensures var a := [PAD, 53, 1, 1, END] + seq(303, _ => END);
            && |a| == AREA
            && Decode(a, 0) == Some([Opt(53, [1])])
            && Find(a, 0, 53) == None
  {
    var a: seq<byte> := [PAD, 53, 1, 1, END] + seq(303, _ => END);
    assert a[3..4] == [1];
    assert Decode(a, 4) == Some([]);
    assert a[1] == 53 && a[2] == 1 && Decode(a, 1).Some?;
    assert Decode(a, 1).value == [Opt(53, [1])];
    assert Decode(a, 1) == Some([Opt(53, [1])]);
    assert Find(a, 55, 53) == None;
  }

  /** For the codes of options it need not: here every one is found although there are PADs in front. */
  lemma {:induction false} PairOfPadsHidesNone()
    ensures var a := [PAD, PAD, 53, 1, 1, END] + seq(302, _ => END);
            && |a| == AREA && !PadFree(a, 0)
            && Decode(a, 0) == Some([Opt(53, [1])])
            && forall cmd: byte | cmd != PAD :: Agrees(a, 0, cmd)
  {
    var a: seq<byte> := [PAD, PAD, 53, 1, 1, END] + seq(302, _ => END);
    assert a[4..5] == [1];
    assert Decode(a, 5) == Some([]);
    assert a[2] == 53 && a[3] == 1 && Decode(a, 2).Some?;
    assert Decode(a, 2).value == [Opt(53, [1])];
    assert Decode(a, 0) == Decode(a, 1) == Decode(a, 2);
    forall cmd: byte | cmd != PAD
      ensures Agrees(a, 0, cmd)
    {
      assert NoPadBefore(a, 5, cmd) && NoPadBefore(a, 2, cmd);
      AgreesBeforePad(a, 2, cmd);
      assert Find(a, 0, cmd) == Find(a, 2, cmd);
    }
  }

  lemma {:induction false} EncodeAppend(list: seq<Opt>, o: Opt)
    requires AllWritable(list) && Writable(o)
    ensures AllWritable(list + [o])
    ensures Encode(list + [o]) == Encode(list) + EncodeOpt(o)
    decreases |list|
  {
    if list == [] {
      assert list + [o] == [o];
    } else {
      var rest := list[1..];
      EncodeAppend(rest, o);
      assert (list + [o])[1..] == rest + [o];
      assert Encode(list + [o]) == EncodeOpt(list[0]) + (Encode(rest) + EncodeOpt(o));
    }
  }

  /** opt_find: the index of the option with code `cmd` in the area starting at `opt`. */
  method OptFind(msg: array<byte>, opt: nat, cmd: byte) returns (r: Option<nat>)
    requires opt + AREA <= msg.Length
    ensures r == Find(msg[opt..opt + AREA], 0, cmd)
  {
    ghost var area := msg[opt..opt + AREA];
    var i := 0;
    while i < AREA && msg[opt + i] != END
      invariant 0 <= i
      invariant Find(area, 0, cmd) == Find(area, i, cmd)
      decreases AREA - i
    {
      assert area[i] == msg[opt + i];
      if msg[opt + i] == cmd {
        return Some(i);
      }
      if i + 1 < AREA {
        i := i + 2 + msg[opt + i + 1];
      } else {
        // The length octet lies past the area; every value of it ends the walk.
        i := i + 2;
      }
    }
    return None;
  }

  /** opt_write_n: code, length, data; returns the advanced pointer. */
  method OptWriteN(msg: array<byte>, opt: nat, cmd: byte, data: seq<byte>) returns (next: nat)
    requires Writable(Opt(cmd, data))
    requires opt + 2 + |data| <= msg.Length
    modifies msg
    ensures next == opt + 2 + |data|
    ensures WrittenAt(old(msg[..]), msg[..], opt, EncodeOpt(Opt(cmd, data)))
  {
    msg[opt] := cmd;
    msg[opt + 1] := |data|;
    forall k | 0 <= k < |data| {
      msg[opt + 2 + k] := data[k];
    }
    next := opt + 2 + |data|;
  }

  /** opt_write_u8. */
  method OptWriteU8(msg: array<byte>, opt: nat, cmd: byte, val: byte) returns (next: nat)
    requires cmd != END
    requires opt + 3 <= msg.Length
    modifies msg
    ensures next == opt + 3
    ensures WrittenAt(old(msg[..]), msg[..], opt, EncodeOpt(Opt(cmd, [val])))
  {
    msg[opt], msg[opt + 1], msg[opt + 2] := cmd, 1, val;
    next := opt + 3;
  }

  /** opt_write_u32: the value most significant octet first. */
  method OptWriteU32(msg: array<byte>, opt: nat, cmd: byte, val: uint32) returns (next: nat)
    requires cmd != END
    requires opt + 6 <= msg.Length
    modifies msg
    ensures next == opt + 6
    ensures WrittenAt(old(msg[..]), msg[..], opt, EncodeOpt(Opt(cmd, BigEndian32(val))))
  {
    ghost var before := msg[..];
    msg[opt] := cmd;
    msg[opt + 1] := 4;
    msg[opt + 2] := val / 0x100_0000;
    msg[opt + 3] := val / 0x1_0000 % 0x100;
    msg[opt + 4] := val / 0x100 % 0x100;
    msg[opt + 5] := val % 0x100;
    next := opt + 6;
    WrittenPointwise(before, msg[..], opt, EncodeOpt(Opt(cmd, BigEndian32(val))));
  }
}
