/** nanopb's varints and fixed-size numbers ("Base 128 Varints" and "Signed Integers" of the
    Protocol Buffers encoding specification). */
module PbWire {
  import opened History
  import opened Coding

  const TWO_31: nat := 0x8000_0000
  const TWO_63: nat := 0x8000_0000_0000_0000

  type Int64 = x: int | -0x8000_0000_0000_0000 <= x < 0x8000_0000_0000_0000

  /** pb_decode_varint, `k` bytes into the varint; the tenth byte has room for one bit only. */
  function DecodeVarintFrom(bs: Bytes, k: nat): (r: Parsed<nat>)
    ensures r.Got? ==> |r.rest| < |bs|
    decreases |bs|
  {
    if k >= 10 || bs == [] then Bad
    else
      var low: nat := if k == 9 then bs[0] % 2 else bs[0] % 128;
      if bs[0] < 128 then Got(low, bs[1..])
      else match DecodeVarintFrom(bs[1..], k + 1)
        case Got(high, rest) => Got(low + 128 * high, rest)
        case Bad => Bad
  }

  function DecodeVarint(bs: Bytes): (r: Parsed<nat>)
    ensures r.Got? ==> |r.rest| < |bs|
  {
    DecodeVarintFrom(bs, 0)
  }

  /** 2 to the number of bits a varint still has room for after `k` bytes. */
  function RoomAfter(k: nat): nat
    requires k <= 9
    decreases 9 - k
  {
    if k == 9 then 2 else 128 * RoomAfter(k + 1)
  }

  lemma LastVarintByte(v: nat, k: nat, rest: Bytes)
    requires v < 128 && k <= 9 && (k == 9 ==> v < 2)
    ensures DecodeVarintFrom(Varint(v) + rest, k) == Got(v, rest)
    ensures |Varint(v)| == 1
  {
    assert Varint(v) == [v];
    hide Varint;
    assert ([v] + rest)[1..] == rest;
  }

  lemma NextVarintByte(v: nat, k: nat, rest: Bytes)
    requires v >= 128 && k <= 8 && DecodeVarintFrom(Varint(v / 128) + rest, k + 1) == Got(v / 128, rest)
    ensures DecodeVarintFrom(Varint(v) + rest, k) == Got(v, rest)
    ensures |Varint(v)| == |Varint(v / 128)| + 1
  {
    assert |Varint(v)| == |Varint(v / 128)| + 1;
    hide Varint;
    VarintSplit(v, rest);
  }

  lemma {:induction false} VarintRoundTripFrom(v: nat, k: nat, rest: Bytes)
    requires k <= 9 && v < RoomAfter(k)
    ensures DecodeVarintFrom(Varint(v) + rest, k) == Got(v, rest)
    ensures |Varint(v)| <= 10 - k
    decreases 9 - k
  {
    hide Varint, DecodeVarintFrom;
    if v < 128 {
      LastVarintByte(v, k, rest);
    } else {
      VarintRoundTripFrom(v / 128, k + 1, rest);
      NextVarintByte(v, k, rest);
    }
  }

  lemma RoomAtStart()
    ensures RoomAfter(0) == TWO_64
  {
    assert RoomAfter(5) == 128 * 128 * 128 * 128 * 2;
    assert RoomAfter(0) == 128 * 128 * 128 * 128 * 128 * RoomAfter(5);
  }

  /** Every unsigned 64-bit number survives, in at most ten bytes. */
  lemma VarintRoundTrip(v: Word64, rest: Bytes)
    ensures DecodeVarint(Varint(v) + rest) == Got(v as nat, rest)
    ensures |Varint(v)| <= 10
  {
    RoomAtStart();
    VarintRoundTripFrom(v, 0, rest);
  }

  datatype Read32 = Got32(value: nat, rest: Bytes) | Eof32 | Bad32

  function Pow2(n: nat): (p: nat)
    ensures p > 0
  {
    if n == 0 then 1 else 2 * Pow2(n - 1)
  }

  /** Bitwise or. */
  function Or(a: nat, b: nat): nat {
    if a == 0 && b == 0 then 0
    else 2 * Or(a / 2, b / 2) + if a % 2 == 1 || b % 2 == 1 then 1 else 0
  }

  lemma {:induction false} OrZero(a: nat)
    ensures Or(0, a) == Or(a, 0) == a
  {
    if a > 0 {
      OrZero(a / 2);
    }
  }

  /** Groups above the bits read so far are added. */
  lemma {:induction false} OrAbove(a: nat, b: nat, n: nat)
    requires a < Pow2(n)
    ensures Or(a, b * Pow2(n)) == a + b * Pow2(n)
  {
    if n == 0 {
      OrZero(b);
    } else {
      var high := b * Pow2(n - 1);
      assert b * Pow2(n) == 2 * high;
      OrAbove(a / 2, b, n - 1);
    }
  }

  /** The code counts bits in a uint_fast8_t, which has eight bits. */
  function NextBitPos(bitpos: nat): (next: nat)
    requires bitpos < 256
    ensures next == (bitpos + 7) % 256
  {
    if bitpos < 249 then bitpos + 7 else bitpos - 249
  }

  /** One group of seven bits put at `bitpos`, in 32 bits. */
  function Merged(group: nat, bitpos: nat, result: Word32): Word32 {
    Or(result, group * Pow2(bitpos)) % TWO_32
  }

  /** The bits so far once `byte` is read: those beyond bit 32 are dropped. */
  function Collected(byte: nat, bitpos: nat, result: Word32): Word32 {
    if bitpos >= 32 then result else Merged(byte % 128, bitpos, result)
  }

  /** Whether a group beyond bit 32 is neither empty nor a sign extension. */
  predicate StrayGroup(byte: nat, bitpos: nat, result: Word32) {
    byte % 128 != 0 && (result < TWO_31 || byte != if bitpos < 63 then 0xFF else 0x01)
  }

  /** The multi-byte loop of pb_decode_varint32_eof from bit `bitpos` on.  Groups beyond bit 32 must be
      empty, or the sign extension of a number whose bit 31 is set. */
  function DecodeMore32(bs: Bytes, bitpos: nat, result: Word32): (r: Read32)
    requires bitpos < 256
    ensures !r.Eof32?
    ensures r.Got32? ==> |r.rest| < |bs|
    decreases |bs|
  {
    if bs == [] || (bitpos >= 32 && StrayGroup(bs[0], bitpos, result)) then Bad32
    else
      var result' := Collected(bs[0], bitpos, result);
      if bs[0] >= 128 then DecodeMore32(bs[1..], NextBitPos(bitpos), result')
      else if NextBitPos(bitpos) == 35 && bs[0] >= 16 then Bad32
      else Got32(result', bs[1..])
  }

  function DecodeVarint32(bs: Bytes): (r: Read32)
    ensures r.Eof32? <==> bs == []
    ensures r.Got32? ==> |r.rest| < |bs|
  {
    if bs == [] then Eof32
    else if bs[0] < 128 then Got32(bs[0], bs[1..])
    else DecodeMore32(bs[1..], 7, bs[0] % 128)
  }

  /** The same loop with a bit position that does not wrap around: bits beyond 32 are never taken. */
  function DecodeMore32Wide(bs: Bytes, bitpos: nat, result: Word32): Read32
    decreases |bs|
  {
    if bs == [] || (bitpos >= 32 && StrayGroup(bs[0], bitpos, result)) then Bad32
    else
      var result' := Collected(bs[0], bitpos, result);
      if bs[0] >= 128 then DecodeMore32Wide(bs[1..], bitpos + 7, result')
      else if bitpos == 28 && bs[0] >= 16 then Bad32
      else Got32(result', bs[1..])
  }

  function DecodeVarint32Wide(bs: Bytes): Read32 {
    if bs == [] then Eof32
    else if bs[0] < 128 then Got32(bs[0], bs[1..])
    else DecodeMore32Wide(bs[1..], 7, bs[0] % 128)
  }

  /** The number of leading bytes with the continuation bit. */
  function Continuations(bs: Bytes): nat {
    if bs == [] || bs[0] < 128 then 0 else 1 + Continuations(bs[1..])
  }

  lemma {:induction false} WideAgreesFrom(bs: Bytes, bitpos: nat, result: Word32)
    requires bitpos + 7 * Continuations(bs) < 256
    ensures DecodeMore32(bs, bitpos, result) == DecodeMore32Wide(bs, bitpos, result)
    decreases |bs|
  {
    if bs != [] && bs[0] >= 128 {
      WideAgreesFrom(bs[1..], bitpos + 7, Collected(bs[0], bitpos, result));
    }
  }

  /** Up to 36 continuation bytes the eight bits of the counter suffice. */
  lemma WideAgrees(bs: Bytes)
    requires Continuations(bs) <= 36
    ensures DecodeVarint32(bs) == DecodeVarint32Wide(bs)
  {
    if bs != [] && bs[0] >= 128 {
      WideAgreesFrom(bs[1..], 7, bs[0] % 128);
    }
  }

  function EmptyGroups(n: nat): Bytes {
    if n == 0 then [] else [0x80] + EmptyGroups(n - 1)
  }

  lemma MergedIntoNothing(group: nat, bitpos: nat)
    ensures Merged(group, bitpos, 0) == (group * Pow2(bitpos)) % TWO_32
  {
    OrZero(group * Pow2(bitpos));
  }

  lemma EmptyCollected(bitpos: nat)
    ensures Collected(0x80, bitpos, 0) == 0
  {
    MergedIntoNothing(0, bitpos);
    assert 0 * Pow2(bitpos) == 0;
    hide Merged, Pow2;
  }

  lemma PassEmptyGroup(rest: Bytes, bitpos: nat)
    ensures bitpos < 256 ==> DecodeMore32([0x80] + rest, bitpos, 0) == DecodeMore32(rest, NextBitPos(bitpos), 0)
    ensures DecodeMore32Wide([0x80] + rest, bitpos, 0) == DecodeMore32Wide(rest, bitpos + 7, 0)
  {
    hide Collected, NextBitPos;
    assert ([0x80] + rest)[1..] == rest;
    EmptyCollected(bitpos);
  }

  lemma OneMore(n: nat, rest: Bytes)
    requires n > 0
    ensures EmptyGroups(n) + rest == [0x80] + (EmptyGroups(n - 1) + rest)
  {
  }

  lemma {:induction false} PassEmptyGroups(n: nat, rest: Bytes, bitpos: nat)
    requires bitpos + 7 * n < 256
    ensures DecodeMore32(EmptyGroups(n) + rest, bitpos, 0) == DecodeMore32(rest, bitpos + 7 * n, 0)
  {
    hide DecodeMore32, EmptyGroups;
    if n == 0 {
      NoGroups(rest);
    } else {
      OneMore(n, rest);
      PassEmptyGroup(EmptyGroups(n - 1) + rest, bitpos);
      PassEmptyGroups(n - 1, rest, bitpos + 7);
    }
  }

  lemma {:induction false} MoreBehind(n: nat, rest: Bytes)
    ensures EmptyGroups(n) + ([0x80] + rest) == EmptyGroups(n + 1) + rest
  {
    if n > 0 {
      MoreBehind(n - 1, rest);
      OneMore(n, [0x80] + rest);
      OneMore(n + 1, rest);
    }
  }

  lemma NoGroups(rest: Bytes)
    ensures EmptyGroups(0) + rest == rest
  {
  }

  lemma {:induction false} PassEmptyGroupsWide(n: nat, rest: Bytes, bitpos: nat)
    ensures DecodeMore32Wide(EmptyGroups(n) + rest, bitpos, 0) == DecodeMore32Wide(rest, bitpos + 7 * n, 0)
  {
    hide DecodeMore32, DecodeMore32Wide, EmptyGroups;
    if n == 0 {
      NoGroups(rest);
    } else {
      OneMore(n, rest);
      PassEmptyGroup(EmptyGroups(n - 1) + rest, bitpos);
      PassEmptyGroupsWide(n - 1, rest, bitpos + 7);
    }
  }

  lemma PowThree()
    ensures Pow2(3) == 8
  {
    assert Pow2(1) == 2;
  }

  lemma CollectedAtThree(group: nat)
    requires group < 128
    ensures Collected(group, 3, 0) == 8 * group
  {
    hide Or, Pow2;
    PowThree();
    OrZero(8 * group);
  }

  lemma LastGroup(group: nat, rest: Bytes)
    requires 0 < group < 128
    ensures DecodeMore32([group] + rest, 3, 0) == Got32(8 * group, rest)
    ensures DecodeMore32Wide([group] + rest, 259, 0) == Bad32
  {
    CollectedAtThree(group);
    hide Collected;
    assert ([group] + rest)[1..] == rest;
  }

  lemma FirstOfMany(byte: Byte, more: Bytes)
    requires byte >= 128
    ensures DecodeVarint32([byte] + more) == DecodeMore32(more, 7, byte % 128)
    ensures DecodeVarint32Wide([byte] + more) == DecodeMore32Wide(more, 7, byte % 128)
  {
    assert ([byte] + more)[1..] == more;
  }

  /** Behind 37 continuation bytes the counter is at 3 again: the code takes a group that lies beyond
      bit 32, which a wider counter would reject. */
  lemma WrappedGroupAccepted(group: nat, rest: Bytes)
    requires 0 < group < 128
    ensures var bs := EmptyGroups(37) + ([group] + rest);
            DecodeVarint32(bs) == Got32(8 * group, rest) && DecodeVarint32Wide(bs) == Bad32
  {
    hide DecodeMore32, DecodeMore32Wide, DecodeVarint32, DecodeVarint32Wide, EmptyGroups;
    var last: Bytes := [group] + rest;
    OneMore(37, last);
    FirstOfMany(0x80, EmptyGroups(36) + last);
    PassEmptyGroupsWide(36, last, 7);
    PassEmptyGroups(35, [0x80] + last, 7);
    MoreBehind(35, last);
    PassEmptyGroup(last, 252);
    LastGroup(group, rest);
  }

  /** The first bit of the next group, for the groups that fit into 32 bits. */
  function Shift(k: nat): nat
    requires 1 <= k <= 4
  {
    match k
    case 1 => 0x80
    case 2 => 0x4000
    case 3 => 0x20_0000
    case _ => 0x1000_0000
  }

  /** What merging comes to when the bits from the group's first on are still free. */
  function Added(group: nat, k: nat, result: Word32): Word32
    requires 1 <= k <= 4
  {
    (result + group * Shift(k)) % TWO_32
  }

  lemma Shifts()
    ensures Pow2(7) == Shift(1) == 0x80 && Pow2(14) == Shift(2) == 0x4000
    ensures Pow2(21) == Shift(3) == 0x20_0000 && Pow2(28) == Shift(4) == 0x1000_0000
  {
    assert Pow2(14) == 0x80 * Pow2(7);
    assert Pow2(21) == 0x80 * Pow2(14);
    assert Pow2(28) == 0x80 * Pow2(21);
  }

  lemma CollectedIsAdded(byte: nat, k: nat, result: Word32)
    requires 1 <= k <= 4 && result < Shift(k)
    ensures Collected(byte, 7 * k, result) == Added(byte % 128, k, result)
  {
    Shifts();
    hide Pow2, Or;
    OrAbove(result, byte % 128, 7 * k);
  }

  /** One byte with the continuation bit, one without. */
  lemma More32Byte(byte: Byte, rest: Bytes, k: nat, result: Word32)
    requires 1 <= k <= 35
    ensures DecodeMore32([byte] + rest, 7 * k, result) ==
              if k >= 5 && StrayGroup(byte, 7 * k, result) then Bad32
              else if byte >= 128 then DecodeMore32(rest, 7 * (k + 1), Collected(byte, 7 * k, result))
              else if k == 4 && byte >= 16 then Bad32
              else Got32(Collected(byte, 7 * k, result), rest)
  {
    hide Collected, StrayGroup;
    assert ([byte] + rest)[0] == byte && ([byte] + rest)[1..] == rest;
    assert NextBitPos(7 * k) == 7 * (k + 1);
  }

  lemma BeyondBit32(byte: nat, k: nat, result: Word32)
    requires k >= 5
    ensures Collected(byte, 7 * k, result) == result
  {
  }

  lemma More32Step(w: nat, k: nat, result: Word32, rest: Bytes)
    requires w >= 128 && 1 <= k <= 35 && (k <= 4 ==> result < Shift(k))
    ensures var next := Varint(w / 128) + rest;
            DecodeMore32(Varint(w) + rest, 7 * k, result) ==
              if k <= 4 then DecodeMore32(next, 7 * (k + 1), Added(w % 128, k, result))
              else if StrayGroup(w % 128 + 128, 7 * k, result) then Bad32 else DecodeMore32(next, 7 * (k + 1), result)
  {
    hide Varint, Collected, Added, StrayGroup, DecodeMore32;
    var byte: Byte, next: Bytes := w % 128 + 128, Varint(w / 128) + rest;
    VarintSplit(w, rest);
    assert Varint(w) + rest == [byte] + next;
    More32Byte(byte, next, k, result);
    if k <= 4 {
      CollectedIsAdded(byte, k, result);
    } else {
      BeyondBit32(byte, k, result);
    }
  }

  lemma More32Last(w: nat, k: nat, result: Word32, rest: Bytes)
    requires w < 128 && 1 <= k <= 35 && (k <= 4 ==> result < Shift(k))
    ensures DecodeMore32(Varint(w) + rest, 7 * k, result) ==
              if k <= 3 || (k == 4 && w < 16) then Got32(Added(w, k, result), rest)
              else if k == 4 || StrayGroup(w, 7 * k, result) then Bad32 else Got32(result, rest)
  {
    assert Varint(w) == [w];
    hide Varint, Collected, Added, StrayGroup, DecodeMore32;
    More32Byte(w, rest, k, result);
    if k <= 4 {
      CollectedIsAdded(w, k, result);
    } else {
      BeyondBit32(w, k, result);
    }
  }

  lemma {:induction false} More32Fits(w: nat, k: nat, result: Word32, rest: Bytes)
    requires 1 <= k <= 4 && result < Shift(k) && result + w * Shift(k) < TWO_32
    ensures DecodeMore32(Varint(w) + rest, 7 * k, result) == Got32(result + w * Shift(k), rest)
    decreases 4 - k
  {
    hide Varint, DecodeMore32;
    if w >= 128 {
      More32Step(w, k, result, rest);
      assert w == 128 * (w / 128) + w % 128;
      if k <= 3 {
        assert Shift(k + 1) == 128 * Shift(k);
        More32Fits(w / 128, k + 1, result + (w % 128) * Shift(k), rest);
      }
    } else {
      More32Last(w, k, result, rest);
    }
  }

  lemma FirstByte(v: nat, rest: Bytes)
    requires v >= 128
    ensures DecodeVarint32(Varint(v) + rest) == DecodeMore32(Varint(v / 128) + rest, 7, v % 128)
  {
    hide Varint, DecodeMore32;
    VarintSplit(v, rest);
  }

  lemma Varint32RoundTrip(v: Word32, rest: Bytes)
    ensures DecodeVarint32(Varint(v) + rest) == Got32(v, rest)
  {
    if v >= 128 {
      hide Varint, DecodeVarint32, DecodeMore32;
      FirstByte(v, rest);
      More32Fits(v / 128, 1, v % 128, rest);
    } else {
      assert ([v] + rest)[1..] == rest;
    }
  }

  lemma FourGroups(v: nat)
    ensures var v1, v2, v3 := v / 128, v / 128 / 128, v / 128 / 128 / 128;
            && v / 0x1000_0000 == v3 / 128
            && v % 0x1000_0000 == v % 128 + (v1 % 128) * 0x80 + (v2 % 128) * 0x4000 + (v3 % 128) * 0x20_0000
  {
    var v1, v2, v3 := v / 128, v / 128 / 128, v / 128 / 128 / 128;
    assert v == 128 * v1 + v % 128 && v1 == 128 * v2 + v1 % 128 && v2 == 128 * v3 + v2 % 128 && v3 == 128 * (v3 / 128) + v3 % 128;
    var low := v % 128 + (v1 % 128) * 0x80 + (v2 % 128) * 0x4000 + (v3 % 128) * 0x20_0000;
    assert v == low + (v3 / 128) * 0x1000_0000;
    assert 0 <= low < 0x1000_0000;
  }

  lemma SmallMerge(w: nat, k: nat, result: nat)
    requires 1 <= k <= 3 && result < Shift(k)
    ensures result < TWO_32
    ensures Added(w % 128, k, result) == result + (w % 128) * Shift(k) < Shift(k + 1)
  {
  }

  /** Reading the first four bytes of a varint: 28 bits. */
  lemma FirstFourBytes(v: nat, rest: Bytes)
    requires v >= 0x1000_0000
    ensures DecodeVarint32(Varint(v) + rest) == DecodeMore32(Varint(v / 0x1000_0000) + rest, 28, v % 0x1000_0000)
  {
    hide Varint, DecodeMore32, Added, Shift;
    FourGroups(v);
    Shifts();
    var v1 := v / 128;
    var v2 := v1 / 128;
    var v3 := v2 / 128;
    FirstByte(v, rest);
    SmallMerge(v1, 1, v % 128);
    var r2 := v % 128 + (v1 % 128) * Shift(1);
    SmallMerge(v2, 2, r2);
    var r3 := r2 + (v2 % 128) * Shift(2);
    SmallMerge(v3, 3, r3);
    More32Step(v1, 1, v % 128, rest);
    More32Step(v2, 2, r2, rest);
    More32Step(v3, 3, r3, rest);
  }

  /** Reading the first five bytes of a long varint: 35 bits, of which the low 32 are kept. */
  lemma FirstFiveBytes(v: nat, rest: Bytes)
    requires v >= 0x8_0000_0000
    ensures DecodeVarint32(Varint(v) + rest) == DecodeMore32(Varint(v / 0x8_0000_0000) + rest, 35, v % TWO_32)
  {
    hide Varint, DecodeMore32, DecodeVarint32;
    FirstFourBytes(v, rest);
    var v4, r4 := v / 0x1000_0000, v % 0x1000_0000;
    More32Step(v4, 4, r4, rest);
    LowBits(v4, r4);
    assert v == r4 + v4 * 0x1000_0000;
  }

  lemma DropMultiple(a: nat, q: nat)
    ensures (a + q * TWO_32) % TWO_32 == a % TWO_32
  {
  }

  /** Of a seven bit group at bit 28 only the low four bits stay within 32 bits. */
  lemma LowBits(w: nat, low: nat)
    requires low < 0x1000_0000
    ensures (low + (w % 128) * 0x1000_0000) % TWO_32 == (low + w * 0x1000_0000) % TWO_32
    ensures (low + w * 0x1000_0000) / 0x8_0000_0000 == w / 128
  {
    var kept := low + (w % 128 % 16) * 0x1000_0000;
    var a, b := w % 128 / 16, 8 * (w / 128) + w % 128 / 16;
    assert low + (w % 128) * 0x1000_0000 == kept + a * TWO_32;
    assert low + w * 0x1000_0000 == kept + b * TWO_32;
    DropMultiple(kept, a);
    DropMultiple(kept, b);
  }

  lemma {:induction false} HighGroupsRejected(w: nat, k: nat, result: Word32, rest: Bytes)
    requires 5 <= k <= 8 && 0 < w < RoomAfter(k) / 2
    ensures DecodeMore32(Varint(w) + rest, 7 * k, result) == Bad32
    decreases 9 - k
  {
    hide Varint, DecodeMore32;
    if w >= 128 {
      More32Step(w, k, result, rest);
      assert RoomAfter(9) == 2 && RoomAfter(8) == 256;
      HighGroupsRejected(w / 128, k + 1, result, rest);
    } else {
      More32Last(w, k, result, rest);
    }
  }

  /** On the encoder's output the 32-bit decoder returns numbers below 2^32 and the low half of a
      sign-extended negative int32, and rejects everything from 2^32 up to 2^63. */
  lemma Varint32OfEncoder(v: Word64, rest: Bytes)
    ensures v < TWO_32 ==> DecodeVarint32(Varint(v) + rest) == Got32(v as nat, rest)
    ensures TWO_64 - TWO_31 <= v ==> DecodeVarint32(Varint(v) + rest) == Got32(v % TWO_32, rest)
    ensures TWO_32 <= v < TWO_63 ==> DecodeVarint32(Varint(v) + rest) == Bad32
  {
    hide Varint, DecodeMore32, DecodeVarint32;
    if v < TWO_32 {
      Varint32RoundTrip(v, rest);
    } else if v < 0x8_0000_0000 {
      FiveByteOverflow(v, rest);
    } else {
      FirstFiveBytes(v, rest);
      if v < TWO_63 {
        RoomAfterFive();
        HighGroupsRejected(v / 0x8_0000_0000, 5, v % TWO_32, rest);
      } else if TWO_64 - TWO_31 <= v {
        assert v / 0x8_0000_0000 == 0x1FFF_FFFF;
        SignExtensionAccepted(v % TWO_32, rest);
      }
    }
  }

  lemma RoomAfterFive()
    ensures RoomAfter(5) == 0x2000_0000
  {
    assert RoomAfter(7) == 128 * 128 * 2;
  }

  lemma SignExtensionAccepted(result: Word32, rest: Bytes)
    requires result >= TWO_31
    ensures DecodeMore32(Varint(0x1FFF_FFFF) + rest, 35, result) == Got32(result, rest)
  {
    hide Varint, DecodeMore32;
    More32Step(0x1FFF_FFFF, 5, result, rest);
    More32Step(0x3F_FFFF, 6, result, rest);
    More32Step(0x7FFF, 7, result, rest);
    More32Step(0xFF, 8, result, rest);
    More32Last(1, 9, result, rest);
  }

  lemma FiveByteOverflow(v: nat, rest: Bytes)
    requires TWO_32 <= v < 0x8_0000_0000
    ensures DecodeVarint32(Varint(v) + rest) == Bad32
  {
    hide Varint, DecodeMore32, DecodeVarint32;
    FirstFourBytes(v, rest);
    More32Last(v / 0x1000_0000, 4, v % 0x1000_0000, rest);
  }

  /** ZigZag, with the shift and complement of the unsigned 64-bit representation written out. */
  function ZigZag(value: Int64): Word64 {
    var bits := value % TWO_64;
    if value < 0 then TWO_64 - 1 - (bits * 2) % TWO_64 else (bits * 2) % TWO_64
  }

  function ToInt64(bits: Word64): Int64 {
    if bits < TWO_63 then bits else bits - TWO_64
  }

  function UnZigZag(value: Word64): Int64 {
    if value % 2 == 1 then ToInt64(TWO_64 - 1 - value / 2) else ToInt64(value / 2)
  }

  lemma ZigZagRoundTrip(value: Int64)
    ensures UnZigZag(ZigZag(value)) == value
    ensures ZigZag(value) == if value < 0 then -2 * value - 1 else 2 * value
  {
    if value < 0 {
      assert value % TWO_64 == value + TWO_64;
      assert ((value + TWO_64) * 2) % TWO_64 == 2 * value + TWO_64;
    }
  }
}
