/** Little-endian fixed integers, base 128 varints and length-prefixed slices (util/coding.cc),
    and the checksum mask of util/crc32c.h. */
module Coding {
  import opened History

  const TWO_32: nat := 0x1_0000_0000
  const TWO_64: nat := 0x1_0000_0000_0000_0000

  type Word32 = x: int | 0 <= x < TWO_32
  type Word64 = x: int | 0 <= x < TWO_64

  /** The checksum is an uninterpreted function of the bytes it covers. */
  type Crc = Bytes -> Word32

  function EncodeFixed(v: nat, width: nat): (b: Bytes)
    ensures |b| == width
  {
    if width == 0 then [] else [v % 256] + EncodeFixed(v / 256, width - 1)
  }

  function DecodeFixed(b: Bytes): nat {
    if b == [] then 0 else b[0] + 256 * DecodeFixed(b[1..])
  }

  function Pow256(n: nat): (p: nat)
    ensures p > 0
  {
    if n == 0 then 1 else 256 * Pow256(n - 1)
  }

  lemma {:induction false} FixedRoundTrip(v: nat, width: nat)
    requires v < Pow256(width)
    ensures DecodeFixed(EncodeFixed(v, width)) == v
  {
    if width > 0 {
      FixedRoundTrip(v / 256, width - 1);
    }
  }

  lemma LowByte(low: Byte, high: nat)
    ensures (low + 256 * high) % 256 == low && (low + 256 * high) / 256 == high
  {
  }

  lemma {:induction false} FixedBytes(b: Bytes)
    ensures EncodeFixed(DecodeFixed(b), |b|) == b
  {
    if b != [] {
      FixedBytes(b[1..]);
      LowByte(b[0], DecodeFixed(b[1..]));
    }
  }

  lemma {:induction false} FixedInRange(b: Bytes)
    ensures DecodeFixed(b) < Pow256(|b|)
  {
    if b != [] {
      FixedInRange(b[1..]);
    }
  }

  lemma Pow256Values()
    ensures Pow256(4) == TWO_32 && Pow256(8) == TWO_64
  {
    assert Pow256(2) == 65536;
    assert Pow256(4) == 65536 * 65536;
    assert Pow256(6) == 65536 * Pow256(4);
    assert Pow256(8) == 65536 * Pow256(6);
  }

  /** Base 128 groups, least significant first; all but the last have the top bit set. */
  function Varint(v: nat): (b: Bytes)
    ensures b != []
  {
    if v < 128 then [v] else [v % 128 + 128] + Varint(v / 128)
  }

  lemma VarintSplit(v: nat, rest: Bytes)
    requires v >= 128
    ensures var b := Varint(v) + rest;
            b != [] && b[0] == v % 128 + 128 && b[1..] == Varint(v / 128) + rest
  {
    assert Varint(v) + rest == [v % 128 + 128] + (Varint(v / 128) + rest);
  }

  /** What a read leaves behind: the value and the unread bytes. */
  datatype Parsed<+T> = Got(value: T, rest: Bytes) | Bad

  /** GetVarint32, `k` bytes in: at most five bytes, of whose last only four bits fit. */
  function GetVarint32From(bs: Bytes, k: nat): (r: Parsed<nat>)
    ensures r.Got? ==> |r.rest| < |bs|
    decreases |bs|
  {
    if k > 4 || bs == [] then Bad
    else
      var low: nat := if k == 4 then bs[0] % 16 else bs[0] % 128;
      if bs[0] < 128 then Got(low, bs[1..])
      else match GetVarint32From(bs[1..], k + 1)
        case Got(high, rest) => Got(low + 128 * high, rest)
        case Bad => Bad
  }

  function GetLengthPrefixedSlice(bs: Bytes): (r: Parsed<Bytes>)
    ensures r.Got? ==> |r.rest| < |bs|
  {
    match GetVarint32From(bs, 0)
    case Got(n, rest) => if n <= |rest| then Got(rest[..n], rest[n..]) else Bad
    case Bad => Bad
  }

  function PutLengthPrefixedSlice(value: Bytes): Bytes {
    Varint(|value| % TWO_32) + value
  }

  function Room32(k: nat): nat
    requires k <= 4
    decreases 4 - k
  {
    if k == 4 then 16 else 128 * Room32(k + 1)
  }

  lemma {:induction false} GetVarint32RoundTrip(v: nat, k: nat, rest: Bytes)
    requires k <= 4 && v < Room32(k)
    ensures GetVarint32From(Varint(v) + rest, k) == Got(v, rest)
    decreases 4 - k
  {
    if v < 128 {
      assert ([v] + rest)[1..] == rest;
    } else {
      VarintSplit(v, rest);
      GetVarint32RoundTrip(v / 128, k + 1, rest);
    }
  }

  lemma RoomAtStart32()
    ensures Room32(0) == TWO_32
  {
    assert Room32(2) == 128 * 128 * 16;
  }

  lemma FitsWord32(n: nat)
    requires n < TWO_32
    ensures n % TWO_32 == n
  {
  }

  lemma PrefixIsLength(value: Bytes)
    requires |value| < TWO_32
    ensures PutLengthPrefixedSlice(value) == Varint(|value|) + value
  {
    hide Varint;
    FitsWord32(|value|);
  }

  lemma Behind(a: Bytes, value: Bytes, rest: Bytes)
    ensures (a + value) + rest == a + (value + rest)
    ensures (value + rest)[..|value|] == value && (value + rest)[|value|..] == rest
  {
  }

  lemma LengthPrefixedRoundTrip(value: Bytes, rest: Bytes)
    requires |value| < TWO_32
    ensures GetLengthPrefixedSlice(PutLengthPrefixedSlice(value) + rest) == Got(value, rest)
  {
    hide Varint, GetVarint32From, Room32, PutLengthPrefixedSlice;
    RoomAtStart32();
    PrefixIsLength(value);
    Behind(Varint(|value|), value, rest);
    GetVarint32RoundTrip(|value|, 0, value + rest);
  }

  lemma SliceOfSlice(s: Bytes, a: nat, b: nat, c: nat, d: nat)
    requires a <= b <= |s| && c <= d <= b - a
    ensures s[a..b][c..d] == s[a + c..a + d]
  {
    forall i | 0 <= i < d - c ensures s[a..b][c..d][i] == s[a + c..a + d][i] {
      assert s[a..b][c..d][i] == s[a..b][c + i] == s[a + c + i];
    }
  }

  const MASK_DELTA: Word32 := 0xa282ead8

  /** Rotate right by 15 bits and add a constant. */
  function Mask(crc: Word32): Word32 {
    (crc / 0x8000 + (crc % 0x8000) * 0x2_0000 + MASK_DELTA) % TWO_32
  }

  function Unmask(masked: Word32): Word32 {
    var rot := (masked - MASK_DELTA) % TWO_32;
    rot / 0x2_0000 + (rot % 0x2_0000) * 0x8000
  }

  lemma Halves(high: nat, low: nat)
    requires high < 0x2_0000 && low < 0x8000
    ensures high + low * 0x2_0000 < TWO_32
    ensures (high + low * 0x2_0000) / 0x2_0000 == low && (high + low * 0x2_0000) % 0x2_0000 == high
  {
  }

  lemma OffsetUndone(x: Word32, delta: Word32)
    ensures ((x + delta) % TWO_32 - delta) % TWO_32 == x
  {
    if x + delta < TWO_32 {
      assert (x + delta) % TWO_32 == x + delta;
    } else {
      assert (x + delta) % TWO_32 == x + delta - TWO_32;
    }
  }

  lemma UnmaskMask(crc: Word32)
    ensures Unmask(Mask(crc)) == crc
  {
    var high, low := crc / 0x8000, crc % 0x8000;
    Halves(high, low);
    OffsetUndone(high + low * 0x2_0000, MASK_DELTA);
  }
}
