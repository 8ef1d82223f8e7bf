/** pb_encode over output streams: a sizing stream only counts, a writing stream is bounded. */
module PbEncode {
  import opened History
  import opened Coding
  import opened PbWire
  import opened PbMessage

  class OStream {
    const sizing: bool      // the callback is null
    const maxSize: nat
    var bytesWritten: nat
    var buffer: Bytes       // what the callback has been given

    constructor (sizing: bool, maxSize: nat)
      ensures this.sizing == sizing && this.maxSize == maxSize && bytesWritten == 0 && buffer == []
    {
      this.sizing, this.maxSize := sizing, maxSize;
      bytesWritten, buffer := 0, [];
    }

    predicate HasRoom(n: nat)
      reads this
    {
      sizing || n == 0 || bytesWritten + n <= maxSize
    }

    /** The stream has taken exactly `b` since the old state. */
    twostate predicate Took(b: Bytes)
      reads this
    {
      bytesWritten == old(bytesWritten) + |b| && buffer == old(buffer) + if sizing then [] else b
    }

    /** pb_write; a sizing stream is not given any data. */
    method Write(b: Bytes) returns (ok: bool)
      modifies this
      ensures ok <==> old(HasRoom(|b|))
      ensures ok ==> Took(b)
    {
      if |b| > 0 && !sizing {
        if bytesWritten + |b| > maxSize {
          return false;
        }
        buffer := buffer + b;
      }
      bytesWritten := bytesWritten + |b|;
      ok := true;
    }

    /** pb_write without data, for sizing streams only. */
    method Count(n: nat)
      requires sizing
      modifies this
      ensures bytesWritten == old(bytesWritten) + n && buffer == old(buffer)
    {
      bytesWritten := bytesWritten + n;
    }
  }

  /** What one encoding call promises about its stream, given the bytes it stands for: it succeeds
      exactly when there are such bytes and they fit, and then the stream has taken exactly them. */
  twostate predicate Emits(stream: OStream, new r: Result<Bytes>, ok: bool)
    reads stream
  {
    && (ok <==> r.Ok? && old(stream.HasRoom(|r.value|)))
    && (ok ==> stream.Took(r.value))
  }

  /** Groups of seven bits that all announce another one. */
  function Marked(v: nat): Bytes {
    if v == 0 then [] else [v % 128 + 128] + Marked(v / 128)
  }

  lemma {:induction false} MarkedVarint(v: nat)
    requires v > 0
    ensures var marked := Marked(v);
            marked != [] && marked[|marked| - 1] >= 128
            && Varint(v) == marked[..|marked| - 1] + [marked[|marked| - 1] - 128]
  {
    if v < 128 {
      assert Marked(v / 128) == [];
    } else {
      MarkedVarint(v / 128);
      var tail := Marked(v / 128);
      assert Marked(v)[..|tail|] == [v % 128 + 128] + tail[..|tail| - 1];
    }
  }

  /** The loop of pb_encode_varint, and the clearing of the last continuation bit. */
  method FillBuffer(buffer: array<Byte>, value: Word64) returns (n: nat)
    requires buffer.Length == 10 && value > 0
    modifies buffer
    ensures n <= 10 && buffer[..n] == Varint(value)
  {
    hide Varint, Marked, RoomAfter;
    var v: nat := value;
    n := 0;
    RoomAtStart();
    while v > 0
      invariant n <= 10 && (if n == 10 then v == 0 else v < RoomAfter(n))
      invariant buffer[..n] + Marked(v) == Marked(value)
      decreases v
    {
      ghost var before := buffer[..n];
      MarkedStep(before, v);
      RoomShrinks(n, v);
      buffer[n] := v % 128 + 128;
      assert buffer[..n + 1] == before + [v % 128 + 128];
      v := v / 128;
      n := n + 1;
    }
    MarkedStep(buffer[..n], v);
    MarkedVarint(value);
    assert buffer[..n] == Marked(value);
    ghost var front := buffer[..n - 1];
    buffer[n - 1] := buffer[n - 1] - 128;
    assert buffer[..n] == front + [buffer[n - 1]];
  }

  lemma MarkedStep(before: Bytes, v: nat)
    ensures v > 0 ==> (before + [v % 128 + 128]) + Marked(v / 128) == before + Marked(v)
    ensures v == 0 ==> before + Marked(v) == before
  {
  }

  lemma RoomShrinks(n: nat, v: nat)
    requires n <= 9 && v < RoomAfter(n)
    ensures if n == 9 then v / 128 == 0 else v / 128 < RoomAfter(n + 1)
  {
  }

  method EncodeVarint(stream: OStream, value: Word64) returns (ok: bool)
    modifies stream
    ensures Emits(stream, Ok(Varint(value)), ok)
  {
    if value <= 0x7F {
      ok := stream.Write([value]);
    } else {
      var buffer := new Byte[10];
      var n := FillBuffer(buffer, value);
      ok := stream.Write(buffer[..n]);
    }
  }

  method EncodeTag(stream: OStream, wireType: nat, tag: Word32) returns (ok: bool)
    requires wireType < 8
    modifies stream
    ensures Emits(stream, Ok(TagBytes(tag, wireType)), ok)
  {
    ok := EncodeVarint(stream, tag * 8 + wireType);
  }

  method EncodeString(stream: OStream, b: Bytes) returns (ok: bool)
    modifies stream
    ensures Emits(stream, Ok(LengthPrefixed(b)), ok)
  {
    ok := EncodeVarint(stream, |b| % TWO_64);
    if ok {
      ok := stream.Write(b);
    }
  }

  // ----- values, arrays, fields and messages

  method EncodeFieldValue(stream: OStream, t: LType, v: Value) returns (ok: bool)
    modifies stream
    ensures Emits(stream, EncodeValue(t, v), ok)
    decreases t, 0
  {
    ok := false;
    match t
    case Bool => if v.Number? { ok := EncodeVarint(stream, if v.n != 0 then 1 else 0); }
    case SignedVarint(size) => if v.Number? && IntegerSize(size) { ok := EncodeVarint(stream, v.n % TWO_64); }
    case UnsignedVarint(size) => if v.Number? && IntegerSize(size) { ok := EncodeVarint(stream, v.n % TWO_64); }
    case ZigZagVarint(size) =>
      if v.Number? && IntegerSize(size) && -(TWO_63 as int) <= v.n < TWO_63 { ok := EncodeVarint(stream, ZigZag(v.n)); }
    case Fixed32 => ok := stream.Write(EncodeFixed((if v.Number? then v.n else 0) % TWO_32, 4));
    case Fixed64 => ok := stream.Write(EncodeFixed((if v.Number? then v.n else 0) % TWO_64, 8));
    case BytesField(capacity) => if v.Chars? && |v.b| <= capacity { ok := EncodeString(stream, v.b); }
    case StringField(capacity) => if v.Chars? && |v.b| <= capacity { ok := EncodeString(stream, CString(v.b)); }
    case FixedLengthBytes(size) => if v.Chars? && |v.b| == size { ok := EncodeString(stream, v.b); }
    case SubMessage(fields) => if v.Nested? { ok := EncodeSubmessage(stream, fields, v.m); }
  }

  /** pb_encode_submessage: a sizing pass, then the real one into a substream of exactly that size. */
  method EncodeSubmessage(stream: OStream, fields: seq<Field>, m: Message) returns (ok: bool)
    modifies stream
    ensures Emits(stream, match EncodeMessage(fields, m) case Ok(b) => Ok(LengthPrefixed(b)) case Error => Error, ok)
    decreases fields, |fields| + 2
  {
    var sizes := new OStream(true, 0);
    ok := Encode(sizes, fields, m);
    if !ok {
      return;
    }
    var size := sizes.bytesWritten;
    ok := EncodeVarint(stream, size % TWO_64);
    if !ok {
      return;
    }
    if stream.sizing {
      stream.Count(size);
      return;
    }
    if stream.bytesWritten + size > stream.maxSize {
      return false;
    }
    var substream := new OStream(false, size);
    ok := Encode(substream, fields, m);
    stream.bytesWritten := stream.bytesWritten + substream.bytesWritten;
    stream.buffer := stream.buffer + substream.buffer;
    // "submsg size changed" cannot happen:
    assert ok && substream.bytesWritten == size;
  }

  lemma NothingEncodes(tag: Word32, t: LType)
    ensures EncodePacked(t, []) == Ok([]) && EncodeTagged(tag, t, []) == Ok([])
  {
  }

  lemma PackedNext(t: LType, vs: seq<Value>, i: nat)
    requires i < |vs|
    ensures var here, after := EncodePacked(t, vs[i..]), EncodePacked(t, vs[i + 1..]);
            match (EncodeValue(t, vs[i]), after) case (Ok(a), Ok(b)) => here == Ok(a + b) case _ => here == Error
  {
    assert vs[i..][0] == vs[i] && vs[i..][1..] == vs[i + 1..];
  }

  lemma TaggedNext(tag: Word32, t: LType, vs: seq<Value>, i: nat)
    requires i < |vs|
    ensures var here, after := EncodeTagged(tag, t, vs[i..]), EncodeTagged(tag, t, vs[i + 1..]);
            match (EncodeValue(t, vs[i]), after)
            case (Ok(a), Ok(b)) => here == Ok(TagBytes(tag, WireType(t)) + a + b)
            case _ => here == Error
  {
    assert vs[i..][0] == vs[i] && vs[i..][1..] == vs[i + 1..];
  }

  /** Part of the way through `all`: the stream has taken `done` and `rest` is what is left. */
  twostate predicate Underway(stream: OStream, new all: Result<Bytes>, new done: Bytes, new rest: Result<Bytes>)
    reads stream
  {
    && stream.Took(done) && old(stream.HasRoom(|done|))
    && (all.Ok? <==> rest.Ok?)
    && (all.Ok? ==> all.value == done + rest.value)
  }

  /** The loops of encode_array that write the elements of a packed array, or size them. */
  method EncodeElements(stream: OStream, f: Field, vs: seq<Value>) returns (ok: bool)
    modifies stream
    ensures Emits(stream, EncodePacked(f.ltype, vs), ok)
    decreases f, 0
  {
    hide EncodePacked, EncodeValue;
    NothingEncodes(f.tag, f.ltype);
    assert vs[0..] == vs && vs[|vs|..] == [];
    ghost var done: Bytes := [];
    var i := 0;
    while i < |vs|
      invariant i <= |vs|
      invariant Underway(stream, EncodePacked(f.ltype, vs), done, EncodePacked(f.ltype, vs[i..]))
    {
      PackedNext(f.ltype, vs, i);
      match f { case Field(_, _, t, _, _) => ok := EncodeFieldValue(stream, t, vs[i]); }
      if !ok {
        return;
      }
      done := done + EncodeValue(f.ltype, vs[i]).value;
      i := i + 1;
    }
    ok := true;
  }

  /** The loop of encode_array, and the single case, where every value follows its own tag. */
  method EncodeWithTags(stream: OStream, f: Field, vs: seq<Value>) returns (ok: bool)
    modifies stream
    ensures Emits(stream, EncodeTagged(f.tag, f.ltype, vs), ok)
    decreases f, 0
  {
    hide EncodeTagged, EncodeValue, TagBytes;
    NothingEncodes(f.tag, f.ltype);
    assert vs[0..] == vs && vs[|vs|..] == [];
    ghost var done: Bytes := [];
    var i := 0;
    while i < |vs|
      invariant i <= |vs|
      invariant Underway(stream, EncodeTagged(f.tag, f.ltype, vs), done, EncodeTagged(f.tag, f.ltype, vs[i..]))
    {
      TaggedNext(f.tag, f.ltype, vs, i);
      ok := EncodeTag(stream, WireType(f.ltype), f.tag);
      if !ok {
        return;
      }
      match f { case Field(_, _, t, _, _) => ok := EncodeFieldValue(stream, t, vs[i]); }
      if !ok {
        return;
      }
      done := done + (TagBytes(f.tag, WireType(f.ltype)) + EncodeValue(f.ltype, vs[i]).value);
      i := i + 1;
    }
    ok := true;
  }

  lemma {:induction false} FixedSize(t: LType, vs: seq<Value>)
    requires t.Fixed32? || t.Fixed64?
    ensures EncodePacked(t, vs).Ok? && |EncodePacked(t, vs).value| == (if t.Fixed32? then 4 else 8) * |vs|
  {
    if vs != [] {
      FixedSize(t, vs[1..]);
    }
  }

  /** The size of a packed array: a multiplication for fixed-size numbers, a sizing pass otherwise. */
  method PackedSize(f: Field, vs: seq<Value>) returns (ok: bool, size: nat)
    ensures ok <==> EncodePacked(f.ltype, vs).Ok?
    ensures ok ==> size == |EncodePacked(f.ltype, vs).value|
    decreases f, 1
  {
    if f.ltype.Fixed32? {
      FixedSize(f.ltype, vs);
      return true, 4 * |vs|;
    } else if f.ltype.Fixed64? {
      FixedSize(f.ltype, vs);
      return true, 8 * |vs|;
    }
    var sizes := new OStream(true, 0);
    ok := EncodeElements(sizes, f, vs);
    size := sizes.bytesWritten;
  }

  /** encode_array. */
  method EncodeArray(stream: OStream, f: Field, vs: seq<Value>) returns (ok: bool)
    requires IsArray(f)
    modifies stream
    ensures Emits(stream,
                  if |vs| > Capacity(f) then Error
                  else if !IsPacked(f) then EncodeTagged(f.tag, f.ltype, vs)
                  else if vs == [] then Ok([])
                  else match EncodePacked(f.ltype, vs)
                    case Ok(b) => Ok(TagBytes(f.tag, 2) + LengthPrefixed(b))
                    case Error => Error,
                  ok)
    decreases f, 3
  {
    if vs == [] {
      return true;
    }
    if |vs| > Capacity(f) {
      return false;
    }
    if !Packable(f.ltype) {
      ok := EncodeWithTags(stream, f, vs);
    } else {
      ok := EncodePackedArray(stream, f, vs);
    }
  }

  /** The packed form: one tag, the size of the contents, the contents. */
  method EncodePackedArray(stream: OStream, f: Field, vs: seq<Value>) returns (ok: bool)
    modifies stream
    ensures Emits(stream,
                  match EncodePacked(f.ltype, vs)
                  case Ok(b) => Ok(TagBytes(f.tag, 2) + LengthPrefixed(b))
                  case Error => Error,
                  ok)
    decreases f, 2
  {
    hide EncodePacked, TagBytes, Varint;
    ok := EncodeTag(stream, 2, f.tag);
    if !ok {
      return;
    }
    var size;
    ok, size := PackedSize(f, vs);
    if !ok {
      return;
    }
    ok := EncodeVarint(stream, size % TWO_64);
    if !ok {
      return;
    }
    if stream.sizing {
      stream.Count(size);
    } else {
      ok := EncodeElements(stream, f, vs);
    }
  }

  /** encode_basic_field. */
  method EncodeBasicField(stream: OStream, f: Field, s: Slot) returns (ok: bool)
    modifies stream
    ensures Emits(stream, EncodeField(f, s), ok)
    decreases f, 4
  {
    ok := true;
    match f.htype
    case Required =>
      if !s.Single? { return false; }
      ok := EncodeWithTags(stream, f, [s.v]);
    case Optional =>
      if !s.Single? { return false; }
      if s.has { ok := EncodeWithTags(stream, f, [s.v]); }
    case Implicit =>
      if !s.Single? { return false; }
      var implicitHas := !IsZero(f.ltype, s.v);
      if implicitHas { ok := EncodeWithTags(stream, f, [s.v]); }
    case Repeated(max) =>
      if !s.Many? { return false; }
      ok := EncodeArray(stream, f, s.vs);
    case FixedCount(n) =>
      if !s.Many? || |s.vs| != n { return false; }
      ok := EncodeArray(stream, f, s.vs);
    case OneOf =>
      if !s.Union? { return false; }
      if s.which == f.tag { ok := EncodeWithTags(stream, f, [s.v]); }
  }

  /** pb_encode.  On a sizing stream it counts exactly the bytes it emits on a writing one, and on a
      writing stream it succeeds exactly when they fit into the space left. */
  method Encode(stream: OStream, fields: seq<Field>, m: Message) returns (ok: bool)
    modifies stream
    ensures Emits(stream, EncodeMessage(fields, m), ok)
    decreases fields, |fields| + 1
  {
    ghost var done: Bytes := [];
    var i := 0;
    while i < |fields|
      invariant i <= |fields|
      invariant Underway(stream, EncodeMessage(fields, m), done, EncodeFrom(fields, i, m))
    {
      var f := fields[i];
      if f.place !in m.slots {
        return false;
      }
      ok := EncodeBasicField(stream, f, m.slots[f.place]);
      if !ok {
        return;
      }
      done := done + EncodeField(f, m.slots[f.place]).value;
      i := i + 1;
    }
    ok := true;
  }

  /** pb_get_encoded_size. */
  method GetEncodedSize(fields: seq<Field>, m: Message) returns (ok: bool, size: nat)
    ensures ok <==> EncodeMessage(fields, m).Ok?
    ensures ok ==> size == |EncodeMessage(fields, m).value|
  {
    var stream := new OStream(true, 0);
    ok := Encode(stream, fields, m);
    size := stream.bytesWritten;
  }

  /** pb_ostream_from_buffer and pb_encode: a message is encoded exactly when its size fits the buffer. */
  method EncodeToBuffer(fields: seq<Field>, m: Message, bufferSize: nat) returns (ok: bool, b: Bytes)
    ensures ok <==> EncodeMessage(fields, m).Ok? && |EncodeMessage(fields, m).value| <= bufferSize
    ensures ok ==> b == EncodeMessage(fields, m).value
  {
    var stream := new OStream(false, bufferSize);
    ok := Encode(stream, fields, m);
    b := stream.buffer;
  }
}
