/** pb_decode over bounded input streams and substreams. */
module PbDecode {
  import opened History
  import opened Coding
  import opened PbWire
  import opened PbMessage

  class IStream {
    const data: Bytes
    var state: nat          // where the next byte comes from
    var bytesLeft: nat

    ghost predicate Valid()
      reads this
    {
      state + bytesLeft <= |data|
    }

    ghost function Left(): Bytes
      reads this
      requires Valid()
    {
      data[state..state + bytesLeft]
    }

    constructor (data: Bytes, state: nat, bytesLeft: nat)
      requires state + bytesLeft <= |data|
      ensures this.data == data && this.state == state && this.bytesLeft == bytesLeft && Valid()
    {
      this.data, this.state, this.bytesLeft := data, state, bytesLeft;
    }

    /** The position has advanced by exactly what bytes_left has dropped, and stays within the stream. */
    twostate predicate Conserved()
      reads this
    {
      Valid() && old(state) <= state && state + bytesLeft == old(state) + old(bytesLeft)
    }

    /** After a successful read, `rest` is what is left. */
    twostate predicate LeftWith(rest: Bytes)
      reads this
    {
      Conserved() && Left() == rest
    }

    /** pb_read into a buffer. */
    method Read(count: nat) returns (ok: bool, b: Bytes)
      requires Valid()
      modifies this
      ensures Conserved()
      ensures ok <==> count <= |old(Left())|
      ensures ok ==> b == old(Left())[..count] && LeftWith(old(Left())[count..])
      ensures !ok ==> b == []
    {
      if count == 0 {
        return true, [];
      }
      if bytesLeft < count {
        return false, [];
      }
      SliceOfSlice(data, state, state + bytesLeft, 0, count);
      SliceOfSlice(data, state, state + bytesLeft, count, bytesLeft);
      b := data[state..state + count];
      state := state + count;
      bytesLeft := bytesLeft - count;
      ok := true;
    }

    method ReadByte() returns (ok: bool, byte: Byte)
      requires Valid()
      modifies this
      ensures Conserved()
      ensures ok <==> old(Left()) != []
      ensures ok ==> byte == old(Left())[0] && LeftWith(old(Left())[1..])
      ensures !ok ==> byte == 0
    {
      var b;
      ok, b := Read(1);
      byte := if ok then b[0] else 0;
    }
  }

  /** What a read of `r` promises: it succeeds when the specification does, with the same rest. */
  twostate predicate Reads<T>(stream: IStream, new r: Parsed<T>, ok: bool)
    reads stream
  {
    && stream.Conserved()
    && (ok <==> r.Got?)
    && (ok ==> stream.Left() == r.rest)
  }

  /** The groups read so far, the weight of the next one, and what the rest of the varint adds. */
  ghost predicate PartOf(all: Parsed<nat>, result: nat, weight: nat, more: Parsed<nat>) {
    match more
    case Bad => all.Bad?
    case Got(v, rest) => all == Got(result + weight * v, rest)
  }

  function Weight(k: nat): nat
    requires k <= 9
  {
    if k == 0 then 1 else 128 * Weight(k - 1)
  }

  lemma TopBit(a: nat)
    ensures (a * TWO_63) % TWO_64 == (a % 2) * TWO_63
  {
    assert a * TWO_63 == (a / 2) * TWO_64 + (a % 2) * TWO_63;
  }

  lemma Scaled(a: nat, weight: nat)
    requires a < 128 && weight * 128 <= TWO_63
    ensures a * weight < TWO_64
  {
    Monotone(a, 128, weight);
  }

  lemma Monotone(a: nat, b: nat, weight: nat)
    requires a <= b
    ensures a * weight <= b * weight
  {
    assert b * weight == a * weight + (b - a) * weight;
  }

  lemma WeightNine()
    ensures Weight(9) == TWO_63
  {
    assert Weight(3) == 0x20_0000 && Weight(6) == 0x20_0000 * Weight(3) && Weight(9) == 0x20_0000 * Weight(6);
  }

  /** Shifting a group into place drops whatever does not fit into 64 bits. */
  lemma GroupInPlace(byte: Byte, k: nat)
    requires k <= 9
    ensures ((byte % 128) * Weight(k)) % TWO_64 == (if k == 9 then byte % 2 else byte % 128) * Weight(k)
  {
    hide Weight;
    if k == 9 {
      WeightNine();
      TopBit(byte % 128);
      assert byte % 128 % 2 == byte % 2;
    } else {
      WeightBound(k);
      Scaled(byte % 128, Weight(k));
    }
  }

  lemma {:induction false} WeightBound(k: nat)
    requires k <= 8
    ensures Weight(k) * 128 <= TWO_63
  {
    assert Weight(2) == 0x4000 && Weight(4) == 0x1000_0000 && Weight(6) == 0x4000 * Weight(4) && Weight(8) == 0x4000 * Weight(6);
    assert Weight(1) == 0x80 && Weight(3) == 0x20_0000 && Weight(5) == 0x80 * Weight(4) && Weight(7) == 0x80 * Weight(6);
  }

  lemma Distribute(weight: nat, low: nat, v: nat)
    ensures weight * (low + 128 * v) == low * weight + (128 * weight) * v
  {
  }

  function WeightOrNone(k: nat): nat {
    if k <= 9 then Weight(k) else 0
  }

  /** One byte further into the varint. */
  lemma VarintStep(bs: Bytes, k: nat)
    requires k <= 9 && bs != []
    ensures var low: nat := if k == 9 then bs[0] % 2 else bs[0] % 128;
            DecodeVarintFrom(bs, k) ==
              if bs[0] < 128 then Got(low, bs[1..])
              else match DecodeVarintFrom(bs[1..], k + 1)
                   case Got(high, rest) => Got(low + 128 * high, rest)
                   case Bad => Bad
  {
  }

  lemma PartOfNext(all: Parsed<nat>, result: nat, bs: Bytes, k: nat)
    requires k <= 9 && bs != [] && PartOf(all, result, Weight(k), DecodeVarintFrom(bs, k))
    ensures var result' := result + ((bs[0] % 128) * Weight(k)) % TWO_64;
            && (bs[0] < 128 ==> all == Got(result', bs[1..]))
            && (bs[0] >= 128 ==> PartOf(all, result', WeightOrNone(k + 1), DecodeVarintFrom(bs[1..], k + 1)))
  {
    hide DecodeVarintFrom, Weight;
    GroupInPlace(bs[0], k);
    VarintStep(bs, k);
    var low: nat := if k == 9 then bs[0] % 2 else bs[0] % 128;
    var next := DecodeVarintFrom(bs[1..], k + 1);
    if bs[0] < 128 {
      Distribute(Weight(k), low, 0);
    } else if next.Got? {
      Distribute(Weight(k), low, next.value);
      NextWeight(bs[1..], k);
    }
  }

  lemma NextWeight(bs: Bytes, k: nat)
    requires k <= 9 && DecodeVarintFrom(bs, k + 1).Got?
    ensures WeightOrNone(k + 1) == 128 * Weight(k)
  {
  }

  method DecodeVarint64(stream: IStream) returns (ok: bool, result: nat)
    requires stream.Valid()
    modifies stream
    ensures Reads(stream, DecodeVarint(old(stream.Left())), ok)
    ensures ok ==> result == DecodeVarint(old(stream.Left())).value
  {
    hide DecodeVarintFrom, Weight;
    ghost var all := DecodeVarint(stream.Left());
    var k: nat := 0;
    result := 0;
    AtStart(stream.Left());
    while true
      invariant k <= 10 && stream.Conserved()
      invariant PartOf(all, result, WeightOrNone(k), DecodeVarintFrom(stream.Left(), k))
      decreases 10 - k
    {
      VarintEnds(stream.Left(), k);
      var bitpos := 7 * k;
      if bitpos >= 64 {
        return false, 0;
      }
      ghost var left := stream.Left();
      var byte;
      ok, byte := stream.ReadByte();
      if !ok {
        return false, 0;
      }
      PartOfNext(all, result, left, k);
      result := result + ((byte % 128) * Weight(k)) % TWO_64;
      if byte < 128 {
        return true, result;
      }
      k := k + 1;
    }
  }

  lemma AtStart(bs: Bytes)
    ensures PartOf(DecodeVarint(bs), 0, Weight(0), DecodeVarintFrom(bs, 0))
  {
  }

  lemma VarintEnds(bs: Bytes, k: nat)
    ensures bs == [] || k >= 10 ==> DecodeVarintFrom(bs, k) == Bad
  {
  }

  /** One turn of the loop of pb_decode_varint32_eof. */
  method MoreGroup(stream: IStream, bitpos: nat, result: Word32) returns (ok: bool, byte: Byte, result': Word32)
    requires stream.Valid() && bitpos < 256
    modifies stream
    ensures stream.Conserved() && (ok ==> stream.bytesLeft < old(stream.bytesLeft))
    ensures DecodeMore32(old(stream.Left()), bitpos, result) ==
              if !ok then Bad32
              else if byte >= 128 then DecodeMore32(stream.Left(), NextBitPos(bitpos), result')
              else if NextBitPos(bitpos) == 35 && byte >= 16 then Bad32
              else Got32(result', stream.Left())
  {
    hide Or, Pow2, NextBitPos;
    result' := result;
    ok, byte := stream.ReadByte();
    if !ok {
      return;
    }
    if bitpos >= 32 {
      var signExtension := if bitpos < 63 then 0xFF else 0x01;
      if byte % 128 != 0 && (result < TWO_31 || byte != signExtension) {
        ok := false;
      }
    } else {
      result' := Or(result, (byte % 128) * Pow2(bitpos)) % TWO_32;
    }
  }

  /** pb_decode_varint32_eof. */
  method DecodeVarint32Eof(stream: IStream) returns (ok: bool, dest: Word32, eof: bool)
    requires stream.Valid()
    modifies stream
    ensures stream.Conserved()
    ensures match DecodeVarint32(old(stream.Left()))
            case Got32(v, rest) => ok && dest == v && stream.Left() == rest
            case Eof32 => !ok && eof
            case Bad32 => !ok && !eof
  {
    dest, eof := 0, false;
    var byte;
    ok, byte := stream.ReadByte();
    if !ok {
      eof := stream.bytesLeft == 0;
      return;
    }
    if byte < 128 {
      dest := byte;
      return;
    }
    ghost var all := DecodeVarint32(old(stream.Left()));
    var bitpos: nat := 7;
    var result: Word32 := byte % 128;
    while byte >= 128
      invariant stream.Conserved() && !eof && bitpos < 256
      invariant all == if byte >= 128 then DecodeMore32(stream.Left(), bitpos, result)
                       else if bitpos == 35 && byte >= 16 then Bad32 else Got32(result, stream.Left())
      decreases stream.bytesLeft
    {
      ok, byte, result := MoreGroup(stream, bitpos, result);
      if !ok {
        return;
      }
      bitpos := (bitpos + 7) % 256;
    }
    if bitpos == 35 && byte >= 16 {
      return false, 0, false;
    }
    dest := result;
  }

  method SkipVarintBytes(stream: IStream) returns (ok: bool)
    requires stream.Valid()
    modifies stream
    ensures Reads(stream, SkipVarint(old(stream.Left())), ok)
  {
    ghost var all := SkipVarint(stream.Left());
    while true
      invariant stream.Conserved() && all == SkipVarint(stream.Left())
      decreases stream.bytesLeft
    {
      var byte;
      ok, byte := stream.ReadByte();
      if !ok || byte < 128 {
        return;
      }
    }
  }

  lemma TakePrefixedIs(bs: Bytes, size: nat, rest: Bytes)
    ensures !DecodeVarint32(bs).Got32? ==> TakePrefixed(bs).Bad?
    ensures DecodeVarint32(bs) == Got32(size, rest) ==>
              TakePrefixed(bs) == if size <= |rest| then Got(rest[..size], rest[size..]) else Bad
  {
    hide DecodeVarint32;
  }

  /** pb_make_string_substream: `stream` keeps its place until the substream is closed. */
  method MakeSubstream(stream: IStream) returns (ok: bool, substream: IStream)
    requires stream.Valid()
    modifies stream
    ensures fresh(substream) && substream.data == stream.data && substream.Valid()
    ensures var r := TakePrefixed(old(stream.Left()));
            && (ok <==> r.Got?)
            && (ok ==>
                  && substream.Left() == r.value
                  && stream.bytesLeft == |r.rest| && substream.state + substream.bytesLeft + stream.bytesLeft <= |stream.data|
                  && stream.data[substream.state + substream.bytesLeft..substream.state + substream.bytesLeft + stream.bytesLeft] == r.rest
                  && substream.state + substream.bytesLeft + stream.bytesLeft == old(stream.state + stream.bytesLeft)
                  && old(stream.state) < substream.state)
    ensures !ok ==> stream.Conserved()
  {
    hide DecodeVarint32, TakePrefixed;
    substream := new IStream(stream.data, 0, 0);
    var size, eof;
    ok, size, eof := DecodeVarint32Eof(stream);
    TakePrefixedIs(old(stream.Left()), size, if ok then stream.Left() else []);
    if !ok {
      return;
    }
    if stream.bytesLeft < size {
      return false, substream;
    }
    var at, left := stream.state, stream.bytesLeft;
    SliceOfSlice(stream.data, at, at + left, 0, size);
    SliceOfSlice(stream.data, at, at + left, size, left);
    substream := new IStream(stream.data, at, size);
    stream.bytesLeft := stream.bytesLeft - size;
  }

  /** pb_close_string_substream: whatever the substream has not used is skipped. */
  method CloseSubstream(stream: IStream, substream: IStream)
    requires stream != substream && stream.data == substream.data && substream.Valid()
    requires substream.state + substream.bytesLeft + stream.bytesLeft <= |stream.data|
    modifies stream, substream
    ensures stream.Valid() && stream.bytesLeft == old(stream.bytesLeft)
    ensures stream.state == old(substream.state + substream.bytesLeft)
  {
    if substream.bytesLeft > 0 {
      var ok, skipped := substream.Read(substream.bytesLeft);
    }
    stream.state := substream.state;
  }

  /** A length-prefixed run of bytes that is read as a whole. */
  method ReadPrefixed(stream: IStream, max: nat) returns (ok: bool, b: Bytes)
    requires stream.Valid()
    modifies stream
    ensures stream.Conserved()
    ensures ok <==> TakePrefixed(old(stream.Left())).Got? && |TakePrefixed(old(stream.Left())).value| <= max
    ensures ok ==> b == TakePrefixed(old(stream.Left())).value && stream.Left() == TakePrefixed(old(stream.Left())).rest
  {
    var size, eof;
    b := [];
    ok, size, eof := DecodeVarint32Eof(stream);
    if !ok {
      return;
    }
    if size > max {
      return false, [];
    }
    ok, b := stream.Read(size);
  }

  method SkipFieldData(stream: IStream, wireType: nat) returns (ok: bool)
    requires stream.Valid()
    modifies stream
    ensures Reads(stream, SkipField(wireType, old(stream.Left())), ok)
  {
    var skipped;
    if wireType == 0 {
      ok := SkipVarintBytes(stream);
    } else if wireType == 1 {
      ok, skipped := stream.Read(8);
    } else if wireType == 2 {
      ok, skipped := ReadPrefixed(stream, |stream.data|);
    } else if wireType == 5 {
      ok, skipped := stream.Read(4);
    } else {
      ok := false;
    }
  }

  // ----- values, fields and messages

  /** pb_dec_bytes, pb_dec_string and pb_dec_fixed_length_bytes. */
  method DecodeText(stream: IStream, t: LType) returns (ok: bool, v: Value)
    requires stream.Valid() && (t.BytesField? || t.StringField? || t.FixedLengthBytes?)
    modifies stream
    ensures Reads(stream, DecodeValue(t, old(stream.Left()), Number(0)), ok)
    ensures ok ==> v == DecodeValue(t, old(stream.Left()), Number(0)).value
  {
    hide TakePrefixed;
    var b;
    if t == StringField(0) {
      return false, Number(0);
    }
    var max := match t
               case StringField(capacity) => capacity - 1
               case BytesField(capacity) => capacity
               case FixedLengthBytes(size) => size
               case _ => 0;
    ok, b := ReadPrefixed(stream, max);
    match t {
      case StringField(_) => v := Chars(CString(b));
      case FixedLengthBytes(size) =>
        if ok && |b| == 0 {
          v := Chars(seq(size, _ => 0));
        } else {
          ok := ok && |b| == size;
          v := Chars(b);
        }
      case _ => v := Chars(b);
    }
  }

  /** pb_dec_submessage. */
  method DecodeNested(stream: IStream, fields: seq<Field>, prior: Value) returns (ok: bool, v: Value)
    requires stream.Valid()
    modifies stream
    ensures Reads(stream, DecodeValue(SubMessage(fields), old(stream.Left()), prior), ok)
    ensures ok ==> v == DecodeValue(SubMessage(fields), old(stream.Left()), prior).value
    decreases fields, 2
  {
    hide TakePrefixed, DecodeNoInit;
    v := prior;
    var substream, m;
    ok, substream := MakeSubstream(stream);
    if !ok {
      return;
    }
    ok, m := DecodeNoInitFrom(substream, fields, if prior.Nested? then prior.m else Defaults(fields));
    CloseSubstream(stream, substream);
    v := Nested(m);
  }

  /** The field decoders; a nested message is decoded from its own substream into `prior`. */
  method DecodeFieldValue(stream: IStream, t: LType, prior: Value) returns (ok: bool, v: Value)
    requires stream.Valid()
    modifies stream
    ensures Reads(stream, DecodeValue(t, old(stream.Left()), prior), ok)
    ensures ok ==> v == DecodeValue(t, old(stream.Left()), prior).value
    decreases t
  {
    v := prior;
    match t
    case Bool =>
      var n, eof;
      ok, n, eof := DecodeVarint32Eof(stream);
      v := Number(if n != 0 then 1 else 0);
    case SignedVarint(size) =>
      var n;
      ok, n := DecodeVarint64(stream);
      ok, v := Checked(ok, if ok then DecodeSigned(n, size) else Error);
    case UnsignedVarint(size) =>
      var n;
      ok, n := DecodeVarint64(stream);
      ok, v := Checked(ok, if ok then DecodeUnsigned(n, size) else Error);
    case ZigZagVarint(size) =>
      var n;
      ok, n := DecodeVarint64(stream);
      ok, v := Checked(ok, if ok then DecodeZigZag(n, size) else Error);
    case Fixed32 =>
      var b;
      ok, b := stream.Read(4);
      v := Number(DecodeFixed(b));
    case Fixed64 =>
      var b;
      ok, b := stream.Read(8);
      v := Number(DecodeFixed(b));
    case BytesField(_) => ok, v := DecodeText(stream, t);
    case StringField(_) => ok, v := DecodeText(stream, t);
    case FixedLengthBytes(_) => ok, v := DecodeText(stream, t);
    case SubMessage(fields) => ok, v := DecodeNested(stream, fields, prior);
  }

  method Checked(read: bool, r: Result<int>) returns (ok: bool, v: Value)
    ensures ok <==> read && r.Ok?
    ensures ok ==> v == Number(r.value)
  {
    ok := read && r.Ok?;
    v := if ok then Number(r.value) else Number(0);
  }

  /** The packed array loop of decode_static_field, on the array's substream. */
  method DecodePackedElements(substream: IStream, f: Field, prior: seq<Value>) returns (ok: bool, vs: seq<Value>)
    requires substream.Valid()
    modifies substream
    ensures substream.Conserved()
    ensures ok <==> DecodePacked(f.ltype, old(substream.Left()), prior, Capacity(f)).Ok?
    ensures ok ==> vs == DecodePacked(f.ltype, old(substream.Left()), prior, Capacity(f)).value
    decreases f, 0
  {
    vs := prior;
    while substream.bytesLeft > 0 && |vs| < Capacity(f)
      invariant substream.Conserved()
      invariant DecodePacked(f.ltype, old(substream.Left()), prior, Capacity(f))
             == DecodePacked(f.ltype, substream.Left(), vs, Capacity(f))
      decreases substream.bytesLeft
    {
      ghost var left := substream.bytesLeft;
      var v;
      match f { case Field(_, _, t, _, _) => ok, v := DecodeFieldValue(substream, t, Number(0)); }
      if !ok {
        return;
      }
      vs := vs + [v];
    }
    ok := substream.bytesLeft == 0;
  }

  /** decode_static_field. */
  method DecodeStaticField(stream: IStream, f: Field, wireType: nat, p: Progress) returns (ok: bool, p': Progress)
    requires stream.Valid()
    modifies stream
    ensures Reads(stream, DecodeField(f, wireType, old(stream.Left()), p), ok)
    ensures ok ==> p' == DecodeField(f, wireType, old(stream.Left()), p).value
    decreases f, 1
  {
    p' := p;
    var v;
    if IsArray(f) {
      var vs := OldArray(p.m, f);
      if wireType == 2 && Packable(f.ltype) {
        var substream;
        ok, substream := MakeSubstream(stream);
        if !ok {
          return;
        }
        ok, vs := DecodePackedElements(substream, f, vs);
        CloseSubstream(stream, substream);
        p' := StoreArray(p, f, vs);
      } else if |vs| >= Capacity(f) {
        ok := false;
      } else {
        match f { case Field(_, _, t, _, initial) => ok, v := DecodeFieldValue(stream, t, InitialValue(t, initial)); }
        p' := StoreArray(p, f, vs + [v]);
      }
    } else if f.htype.OneOf? {
      match f { case Field(_, _, t, _, initial) => ok, v := DecodeFieldValue(stream, t, InitialValue(t, initial)); }
      p' := Store(p, f, Union(f.tag, v));
    } else {
      match f { case Field(_, _, t, _, _) => ok, v := DecodeFieldValue(stream, t, OldValue(p.m, f)); }
      p' := Store(p, f, Single(true, v));
    }
  }

  const WORD_BITS: nat := 32

  /** The final check of the bitmap of required fields: whole words first, then the bits of the last one. */
  method AllRequiredSeen(fields: seq<Field>, fieldsSeen: seq<bool>) returns (ok: bool)
    requires |fieldsSeen| == MAX_REQUIRED
    requires forall i :: RequiredBefore(fields, |fields|) <= i < MAX_REQUIRED ==> !fieldsSeen[i]
    ensures ok <==> forall i :: 0 <= i < RequiredBefore(fields, |fields|) && i < MAX_REQUIRED ==> fieldsSeen[i]
  {
    var count := RequiredBefore(fields, |fields|);
    if count > MAX_REQUIRED {
      count := MAX_REQUIRED;
    }
    var word := 0;
    while word < count / WORD_BITS
      invariant word <= count / WORD_BITS
      invariant forall i :: 0 <= i < WORD_BITS * word ==> fieldsSeen[i]
    {
      WordIsLow(fieldsSeen, word, WORD_BITS);
      if Word(fieldsSeen, word) != LowBits(WORD_BITS) {
        return false;
      }
      word := word + 1;
    }
    var bits := count % WORD_BITS;
    if bits != 0 {
      WordIsLow(fieldsSeen, word, bits);
      if Word(fieldsSeen, word) != LowBits(bits) {
        return false;
      }
    }
    ok := true;
  }

  function Word(bitmap: seq<bool>, word: nat): seq<bool>
    requires WORD_BITS * (word + 1) <= |bitmap|
  {
    bitmap[WORD_BITS * word..WORD_BITS * (word + 1)]
  }

  /** A word with only its lowest bits set. */
  function LowBits(bits: nat): (r: seq<bool>)
    ensures |r| == WORD_BITS
  {
    seq(WORD_BITS, b => b < bits)
  }

  lemma WordIsLow(bitmap: seq<bool>, word: nat, bits: nat)
    requires WORD_BITS * (word + 1) <= |bitmap|
    ensures Word(bitmap, word) == LowBits(bits) <==>
              forall i :: WORD_BITS * word <= i < WORD_BITS * (word + 1) ==> (bitmap[i] <==> i < WORD_BITS * word + bits)
  {
    var w, base := Word(bitmap, word), WORD_BITS * word;
    assert forall b :: 0 <= b < WORD_BITS ==> w[b] == bitmap[base + b];
    if forall i :: base <= i < WORD_BITS * (word + 1) ==> (bitmap[i] <==> i < base + bits) {
      assert w == LowBits(bits);
    }
    if w == LowBits(bits) {
      forall i | base <= i < WORD_BITS * (word + 1) ensures bitmap[i] <==> i < base + bits {
        assert w[i - base] == LowBits(bits)[i - base];
      }
    }
  }

  lemma {:induction false} RequiredMonotone(fields: seq<Field>, i: nat, n: nat)
    requires i < n <= |fields| && fields[i].htype.Required?
    ensures RequiredBefore(fields, i) < RequiredBefore(fields, n)
    decreases n
  {
    if i < n - 1 {
      RequiredMonotone(fields, i, n - 1);
    }
  }

  /** A key without a known field. */
  method PassOverField(stream: IStream, fields: seq<Field>, key: nat) returns (ok: bool)
    requires stream.Valid()
    modifies stream
    ensures Reads(stream, PassOver(fields, key, old(stream.Left())), ok)
  {
    if fields == [] && key / 8 == 0 {
      var stray, atEnd;
      ok, stray, atEnd := DecodeVarint32Eof(stream);
    } else {
      ok := SkipFieldData(stream, key % 8);
    }
  }

  /** The bitmap of required fields holds what has been seen. */
  ghost predicate Marks(fields: seq<Field>, fieldsSeen: seq<bool>, seen: set<nat>) {
    && |fieldsSeen| == MAX_REQUIRED
    && (forall i: nat :: i < MAX_REQUIRED ==> (fieldsSeen[i] <==> i in seen))
    && forall i :: i in seen ==> i < RequiredBefore(fields, |fields|)
  }

  /** A key of the field at `i`: bookkeeping, then the field itself. */
  method DecodeKnownField(stream: IStream, fields: seq<Field>, i: nat, wireType: nat, p: Progress, fieldsSeen: seq<bool>)
    returns (ok: bool, p': Progress, fieldsSeen': seq<bool>)
    requires stream.Valid() && i < |fields| && Marks(fields, fieldsSeen, p.seen)
    modifies stream
    ensures Reads(stream, DecodeKnown(fields, i, wireType, old(stream.Left()), p), ok)
    ensures ok ==> p' == DecodeKnown(fields, i, wireType, old(stream.Left()), p).value
    ensures ok ==> Marks(fields, fieldsSeen', p'.seen)
    decreases fields, 0
  {
    p', fieldsSeen' := p, fieldsSeen;
    var f := fields[i];
    var entered := EnterFixed(p, f);
    if entered.Error? {
      return false, p, fieldsSeen;
    }
    p' := entered.value;
    var index := RequiredBefore(fields, i);
    if f.htype.Required? && index < MAX_REQUIRED {
      RequiredMonotone(fields, i, |fields|);
      p' := p'.(seen := p'.seen + {index});
      fieldsSeen' := fieldsSeen[index := true];
    }
    assert Marks(fields, fieldsSeen', p'.seen);
    ok, p' := DecodeStaticField(stream, f, wireType, p');
  }

  /** The loop of pb_decode_noinit: one key after the other until the stream is used up or a zero key ends it. */
  method DecodeNoInitFrom(stream: IStream, fields: seq<Field>, m: Message) returns (ok: bool, m': Message)
    requires stream.Valid()
    modifies stream
    ensures stream.Conserved()
    ensures ok <==> DecodeNoInit(fields, old(stream.Left()), m).Ok?
    ensures ok ==> m' == DecodeNoInit(fields, old(stream.Left()), m).value
    decreases fields, 1
  {
    hide DecodeKnown, PassOver, DecodeVarint32;
    m' := m;
    var p := Progress(m, {}, 0, 0);
    var fieldsSeen := seq(MAX_REQUIRED, _ => false);
    ghost var all := DecodeNoInit(fields, stream.Left(), m);
    while stream.bytesLeft > 0
      invariant stream.Conserved() && all == DecodeLoop(fields, stream.Left(), p)
      invariant Marks(fields, fieldsSeen, p.seen)
      decreases stream.bytesLeft
    {
      var key, eof;
      ok, key, eof := DecodeVarint32Eof(stream);
      if !ok {
        return;
      }
      if key == 0 {
        break;
      }
      var i := Find(fields, key / 8);
      if i == |fields| {
        ok := PassOverField(stream, fields, key);
      } else {
        ok, p, fieldsSeen := DecodeKnownField(stream, fields, i, key % 8, p, fieldsSeen);
      }
      if !ok {
        return;
      }
    }
    m' := p.m;
    if p.fixedField != 0 && p.missing != 0 {
      return false, m;
    }
    ok := AllRequiredSeen(fields, fieldsSeen);
  }
}
