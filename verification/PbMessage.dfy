/** Field descriptors, message structs and what nanopb's encoder makes of them ("Message Structure",
    "Length-Delimited Records" and "Packed Repeated Fields" of the encoding specification). */
module PbMessage {
  import opened History
  import opened Coding
  import opened PbWire

  /** PB_LTYPE with the data size it needs.  For bytes and strings `capacity` is the room for contents. */
  datatype LType =
    | Bool
    | SignedVarint(size: nat)
    | UnsignedVarint(size: nat)
    | ZigZagVarint(size: nat)
    | Fixed32
    | Fixed64
    | BytesField(capacity: nat)
    | StringField(capacity: nat)
    | SubMessage(fields: seq<Field>)
    | FixedLengthBytes(size: nat)

  /** PB_HTYPE.  Implicit is proto3's optional without a has_ flag; FixedCount is a repeated field
      without a counter; the members of a oneof share one place in the struct. */
  datatype HType = Required | Optional | Implicit | Repeated(max: nat) | FixedCount(count: nat) | OneOf

  /** One pb_field_t.  `place` names the memory the field's data lives in. */
  datatype Field = Field(tag: Word32, place: nat, ltype: LType, htype: HType, initial: Value)

  datatype Value = Number(n: int) | Chars(b: Bytes) | Nested(m: Message)

  /** The memory at one place: a value with its has_ flag, an array with its count, or a union with
      the tag of the member it holds. */
  datatype Slot = Single(has: bool, v: Value) | Many(vs: seq<Value>) | Union(which: nat, v: Value)

  datatype Message = Message(slots: map<nat, Slot>)

  datatype Result<+T> = Ok(value: T) | Error

  /** Types up to PB_LTYPE_LAST_PACKABLE. */
  predicate Packable(t: LType) {
    t.Bool? || t.SignedVarint? || t.UnsignedVarint? || t.ZigZagVarint? || t.Fixed32? || t.Fixed64?
  }

  function Find(fields: seq<Field>, tag: nat): (i: nat)
    ensures i <= |fields|
    ensures i < |fields| ==> fields[i].tag == tag
    ensures forall j :: 0 <= j < i ==> fields[j].tag != tag
  {
    if fields == [] then 0 else if fields[0].tag == tag then 0 else 1 + Find(fields[1..], tag)
  }

  // ----- well-formed descriptors and messages

  function Bits(size: nat): nat {
    if size == 1 then 0x100 else if size == 2 then 0x1_0000 else if size == 4 then TWO_32 else TWO_64
  }

  predicate IntegerSize(size: nat) {
    size == 1 || size == 2 || size == 4 || size == 8
  }

  /** A value that fits the memory of a field of this type.  String contents end at their NUL. */
  ghost predicate TypedValue(t: LType, v: Value)
    decreases t
  {
    match t
    case Bool => v.Number? && 0 <= v.n <= 1
    case SignedVarint(size) => v.Number? && IntegerSize(size) && -(Bits(size) / 2) <= v.n < Bits(size) / 2
    case UnsignedVarint(size) => v.Number? && IntegerSize(size) && 0 <= v.n < Bits(size)
    case ZigZagVarint(size) => v.Number? && IntegerSize(size) && -(Bits(size) / 2) <= v.n < Bits(size) / 2
    case Fixed32 => v.Number? && 0 <= v.n < TWO_32
    case Fixed64 => v.Number? && 0 <= v.n < TWO_64
    case BytesField(capacity) => v.Chars? && |v.b| <= capacity
    case StringField(capacity) => v.Chars? && |v.b| <= capacity && 0 !in v.b
    case SubMessage(fields) => v.Nested? && TypedMessage(fields, v.m)
    case FixedLengthBytes(size) => v.Chars? && |v.b| == size
  }

  ghost predicate TypedSlot(f: Field, s: Slot)
    decreases f
  {
    match f.htype
    case Required => s.Single? && TypedValue(f.ltype, s.v)
    case Optional => s.Single? && TypedValue(f.ltype, s.v)
    case Implicit => s.Single? && TypedValue(f.ltype, s.v)
    case Repeated(max) => s.Many? && |s.vs| <= max && forall i :: 0 <= i < |s.vs| ==> TypedValue(f.ltype, s.vs[i])
    case FixedCount(n) => s.Many? && |s.vs| == n && forall i :: 0 <= i < |s.vs| ==> TypedValue(f.ltype, s.vs[i])
    case OneOf => s.Union? && (s.which == f.tag ==> TypedValue(f.ltype, s.v))
  }

  ghost predicate TypedMessage(fields: seq<Field>, m: Message)
    decreases fields
  {
    forall i :: 0 <= i < |fields| ==> fields[i].place in m.slots && TypedSlot(fields[i], m.slots[fields[i].place])
  }

  const MAX_TAG: nat := 0x1FFF_FFFF

  /** Distinct tags in the range the wire format has; one place per field, except that the members
      of a oneof may share theirs; and initial values that are zero for Implicit fields. */
  ghost predicate ProperField(f: Field)
    decreases f
  {
    && 1 <= f.tag <= MAX_TAG
    && (f.htype.Implicit? && !f.ltype.SubMessage? ==> TypedValue(f.ltype, f.initial) && IsZero(f.ltype, f.initial))
    && (f.ltype.SubMessage? ==> ProperFields(f.ltype.fields))
  }

  ghost predicate ProperFields(fields: seq<Field>)
    decreases fields
  {
    && (forall i :: 0 <= i < |fields| ==> ProperField(fields[i]))
    && (forall i, j :: 0 <= i < j < |fields| ==> fields[i].tag != fields[j].tag)
    && (forall i, j :: 0 <= i < j < |fields| && fields[i].place == fields[j].place ==>
          fields[i].htype.OneOf? && fields[j].htype.OneOf?)
  }

  // ----- pb_message_set_to_defaults and pb_check_proto3_default_value

  function InitialValue(t: LType, initial: Value): Value
    decreases t, 1
  {
    if t.SubMessage? then Nested(Defaults(t.fields)) else initial
  }

  function InitialSlot(f: Field): Slot
    decreases f, 0
  {
    match f.htype
    case Repeated(_) => Many([])
    case FixedCount(_) => Many([])
    case OneOf => Union(0, f.initial)
    case _ => Single(false, InitialValue(f.ltype, f.initial))
  }

  function Defaults(fields: seq<Field>): Message
    decreases fields, 1
  {
    Message(DefaultSlots(fields))
  }

  function DefaultSlots(fields: seq<Field>): map<nat, Slot>
    decreases fields, 0
  {
    if fields == [] then map[]
    else
      var last := fields[|fields| - 1];
      DefaultSlots(fields[..|fields| - 1])[last.place := InitialSlot(last)]
  }

  /** pb_check_proto3_default_value for a field inside a message, whose memory is `s`. */
  predicate IsDefault(f: Field, s: Slot)
    decreases f, 0
  {
    match f.htype
    case Required => false
    case Repeated(_) => s.Many? && s.vs == []
    case FixedCount(_) => false
    case OneOf => s.Union? && s.which == 0
    case Optional => s.Single? && !s.has
    case Implicit => s.Single? && IsZero(f.ltype, s.v)
  }

  predicate IsZero(t: LType, v: Value)
    decreases t, 1
  {
    match t
    case BytesField(_) => v.Chars? && v.b == []
    case StringField(_) => v.Chars? && v.b == []
    case FixedLengthBytes(size) => size == 0
    case SubMessage(fields) => v.Nested? && AllDefault(fields, v.m)
    case _ => v.Number? && v.n == 0
  }

  predicate AllDefault(fields: seq<Field>, m: Message)
    decreases fields, 2
  {
    forall i :: 0 <= i < |fields| ==> fields[i].place in m.slots && IsDefault(fields[i], m.slots[fields[i].place])
  }

  // ----- encoding

  function WireType(t: LType): nat {
    match t
    case Bool => 0
    case SignedVarint(_) => 0
    case UnsignedVarint(_) => 0
    case ZigZagVarint(_) => 0
    case Fixed64 => 1
    case Fixed32 => 5
    case _ => 2
  }

  function TagBytes(tag: Word32, wireType: nat): Bytes {
    Varint(tag * 8 + wireType)
  }

  /** The string up to its NUL, or the whole buffer. */
  function CString(b: Bytes): Bytes {
    if b == [] || b[0] == 0 then [] else [b[0]] + CString(b[1..])
  }

  /** The length goes out as an unsigned 64-bit number. */
  function LengthPrefixed(b: Bytes): Bytes {
    Varint(|b| % TWO_64) + b
  }

  /** The field encoders. */
  function EncodeValue(t: LType, v: Value): Result<Bytes>
    decreases t, 0
  {
    match t
    case Bool => if v.Number? then Ok(Varint(if v.n != 0 then 1 else 0)) else Error
    case SignedVarint(size) => if v.Number? && IntegerSize(size) then Ok(Varint(v.n % TWO_64)) else Error
    case UnsignedVarint(size) => if v.Number? && IntegerSize(size) then Ok(Varint(v.n % TWO_64)) else Error
    case ZigZagVarint(size) =>
      if v.Number? && IntegerSize(size) && -(TWO_63 as int) <= v.n < TWO_63 then Ok(Varint(ZigZag(v.n))) else Error
    case Fixed32 => Ok(EncodeFixed((if v.Number? then v.n else 0) % TWO_32, 4))
    case Fixed64 => Ok(EncodeFixed((if v.Number? then v.n else 0) % TWO_64, 8))
    case BytesField(capacity) => if v.Chars? && |v.b| <= capacity then Ok(LengthPrefixed(v.b)) else Error
    case StringField(capacity) => if v.Chars? && |v.b| <= capacity then Ok(LengthPrefixed(CString(v.b))) else Error
    case FixedLengthBytes(size) => if v.Chars? && |v.b| == size then Ok(LengthPrefixed(v.b)) else Error
    case SubMessage(fields) =>
      if !v.Nested? then Error else
      match EncodeMessage(fields, v.m)
      case Ok(b) => Ok(LengthPrefixed(b))
      case Error => Error
  }

  /** The contents of a packed array. */
  function EncodePacked(t: LType, vs: seq<Value>): Result<Bytes>
    decreases t, 1, |vs|
  {
    if vs == [] then Ok([]) else
    match (EncodeValue(t, vs[0]), EncodePacked(t, vs[1..]))
    case (Ok(a), Ok(b)) => Ok(a + b)
    case _ => Error
  }

  /** Values that are written one by one, each behind its own tag. */
  function EncodeTagged(tag: Word32, t: LType, vs: seq<Value>): Result<Bytes>
    decreases t, 1, |vs|
  {
    if vs == [] then Ok([]) else
    match (EncodeValue(t, vs[0]), EncodeTagged(tag, t, vs[1..]))
    case (Ok(a), Ok(b)) => Ok(TagBytes(tag, WireType(t)) + a + b)
    case _ => Error
  }

  /** The values of a field that are due to be written. */
  function Present(f: Field, s: Slot): Result<seq<Value>> {
    match f.htype
    case Required => if s.Single? then Ok([s.v]) else Error
    case Optional => if s.Single? then Ok(if s.has then [s.v] else []) else Error
    case Implicit => if s.Single? then Ok(if IsZero(f.ltype, s.v) then [] else [s.v]) else Error
    case Repeated(max) => if s.Many? && |s.vs| <= max then Ok(s.vs) else Error
    case FixedCount(n) => if s.Many? && |s.vs| == n then Ok(s.vs) else Error
    case OneOf => if s.Union? then Ok(if s.which == f.tag then [s.v] else []) else Error
  }

  predicate IsArray(f: Field) {
    f.htype.Repeated? || f.htype.FixedCount?
  }

  predicate IsPacked(f: Field) {
    IsArray(f) && Packable(f.ltype)
  }

  /** encode_basic_field. */
  function EncodeField(f: Field, s: Slot): Result<Bytes>
    decreases f
  {
    match Present(f, s)
    case Error => Error
    case Ok(vs) =>
      if !IsPacked(f) then EncodeTagged(f.tag, f.ltype, vs)
      else if vs == [] then Ok([])
      else match EncodePacked(f.ltype, vs)
        case Error => Error
        case Ok(b) => Ok(TagBytes(f.tag, 2) + LengthPrefixed(b))
  }

  function EncodeFrom(fields: seq<Field>, i: nat, m: Message): Result<Bytes>
    requires i <= |fields|
    decreases fields, |fields| - i
  {
    if i == |fields| then Ok([])
    else if fields[i].place !in m.slots then Error
    else match (EncodeField(fields[i], m.slots[fields[i].place]), EncodeFrom(fields, i + 1, m))
      case (Ok(a), Ok(b)) => Ok(a + b)
      case _ => Error
  }

  /** pb_encode into a stream without bounds. */
  function EncodeMessage(fields: seq<Field>, m: Message): Result<Bytes>
    decreases fields, |fields| + 1
  {
    EncodeFrom(fields, 0, m)
  }

  // ----- decoding

  /** What pb_decode_noinit keeps track of besides the struct: the required fields seen, and the array
      of fixed size that is being filled with the number of elements it still lacks. */
  datatype Progress = Progress(m: Message, seen: set<nat>, fixedField: nat, missing: nat)

  const MAX_REQUIRED: nat := 64

  function RequiredBefore(fields: seq<Field>, i: nat): (n: nat)
    requires i <= |fields|
    ensures n <= i
  {
    if i == 0 then 0 else RequiredBefore(fields, i - 1) + if fields[i - 1].htype.Required? then 1 else 0
  }

  function Signed(bits: nat, size: nat): int
    requires IntegerSize(size)
  {
    var low := bits % Bits(size);
    if low < Bits(size) / 2 then low else low - Bits(size)
  }

  /** pb_dec_varint: up to 32 bits a number is first read as an int32, and must then fit. */
  function DecodeSigned(word: nat, size: nat): Result<int> {
    if !IntegerSize(size) then Error
    else if size == 8 then Ok(Signed(word, 8))
    else
      var value := Signed(word, 4);
      var clamped := Signed(value % TWO_64, size);
      if clamped == value then Ok(value) else Error
  }

  function DecodeUnsigned(word: nat, size: nat): Result<int> {
    if IntegerSize(size) && word < Bits(size) then Ok(word) else Error
  }

  function DecodeZigZag(word: nat, size: nat): Result<int> {
    if !IntegerSize(size) then Error
    else
      var value := UnZigZag(word % TWO_64);
      if Signed(value % TWO_64, size) == value then Ok(value) else Error
  }

  function Numeric(r: Result<int>, rest: Bytes): (v: Parsed<Value>)
    ensures v.Got? ==> v.rest == rest
  {
    match r
    case Ok(n) => Got(Number(n), rest)
    case Error => Bad
  }

  /** A length and that many bytes: pb_make_string_substream, or a length followed by pb_read. */
  function TakePrefixed(bs: Bytes): (r: Parsed<Bytes>)
    ensures r.Got? ==> |r.rest| < |bs| && |r.value| < |bs|
  {
    match DecodeVarint32(bs)
    case Got32(size, rest) => if size <= |rest| then Got(rest[..size], rest[size..]) else Bad
    case _ => Bad
  }

  /** The field decoders.  `prior` is what the destination holds; a nested message is merged into it. */
  function DecodeValue(t: LType, bs: Bytes, prior: Value): (r: Parsed<Value>)
    ensures r.Got? ==> |r.rest| < |bs|
    decreases t, 0
  {
    match t
    case Bool =>
      (match DecodeVarint32(bs)
       case Got32(n, rest) => Got(Number(if n != 0 then 1 else 0), rest)
       case _ => Bad)
    case SignedVarint(size) =>
      (match DecodeVarint(bs) case Got(n, rest) => Numeric(DecodeSigned(n, size), rest) case Bad => Bad)
    case UnsignedVarint(size) =>
      (match DecodeVarint(bs) case Got(n, rest) => Numeric(DecodeUnsigned(n, size), rest) case Bad => Bad)
    case ZigZagVarint(size) =>
      (match DecodeVarint(bs) case Got(n, rest) => Numeric(DecodeZigZag(n, size), rest) case Bad => Bad)
    case Fixed32 => if |bs| >= 4 then Got(Number(DecodeFixed(bs[..4])), bs[4..]) else Bad
    case Fixed64 => if |bs| >= 8 then Got(Number(DecodeFixed(bs[..8])), bs[8..]) else Bad
    case BytesField(capacity) =>
      (match TakePrefixed(bs)
       case Got(b, rest) => if |b| <= capacity then Got(Chars(b), rest) else Bad
       case Bad => Bad)
    case StringField(capacity) =>
      (match TakePrefixed(bs)
       case Got(b, rest) => if |b| + 1 <= capacity then Got(Chars(CString(b)), rest) else Bad
       case Bad => Bad)
    case FixedLengthBytes(size) =>
      (match TakePrefixed(bs)
       case Got(b, rest) =>
         if |b| == 0 then Got(Chars(seq(size, _ => 0)), rest) else if |b| == size then Got(Chars(b), rest) else Bad
       case Bad => Bad)
    case SubMessage(fields) =>
      (match TakePrefixed(bs)
       case Got(b, rest) =>
         (match DecodeNoInit(fields, b, if prior.Nested? then prior.m else Defaults(fields))
          case Ok(m) => Got(Nested(m), rest)
          case Error => Bad)
       case Bad => Bad)
  }

  /** The packed case of decode_static_field: elements are appended to `vs` until the substream is used up. */
  function DecodePacked(t: LType, bs: Bytes, vs: seq<Value>, max: nat): Result<seq<Value>>
    decreases t, 1, |bs|
  {
    if bs == [] then Ok(vs)
    else if |vs| >= max then Error
    else match DecodeValue(t, bs, Number(0))
      case Got(v, rest) => DecodePacked(t, rest, vs + [v], max)
      case Bad => Error
  }

  function OldValue(m: Message, f: Field): Value {
    if f.place in m.slots && m.slots[f.place].Single? then m.slots[f.place].v else f.initial
  }

  function OldArray(m: Message, f: Field): seq<Value> {
    if f.place in m.slots && m.slots[f.place].Many? then m.slots[f.place].vs else []
  }

  function Capacity(f: Field): nat {
    match f.htype
    case Repeated(max) => max
    case FixedCount(n) => n
    case _ => 1
  }

  function Store(p: Progress, f: Field, s: Slot): Progress {
    p.(m := Message(p.m.slots[f.place := s]))
  }

  /** Entering an array of fixed size: the previous one must be complete. */
  function EnterFixed(p: Progress, f: Field): Result<Progress> {
    if !f.htype.FixedCount? || p.fixedField == f.tag then Ok(p)
    else if p.fixedField != 0 && p.missing != 0 then Error
    else Ok(Store(p, f, Many([])).(fixedField := f.tag, missing := f.htype.count))
  }

  function StoreArray(p: Progress, f: Field, vs: seq<Value>): Progress {
    var q := Store(p, f, Many(vs));
    if f.htype.FixedCount? then q.(missing := if |vs| <= f.htype.count then f.htype.count - |vs| else 0) else q
  }

  /** decode_static_field. */
  function DecodeField(f: Field, wireType: nat, bs: Bytes, p: Progress): (r: Parsed<Progress>)
    ensures r.Got? ==> |r.rest| <= |bs| && r.value.seen == p.seen
    decreases f
  {
    if IsArray(f) then
      var prior := OldArray(p.m, f);
      if wireType == 2 && Packable(f.ltype) then
        match TakePrefixed(bs)
        case Got(b, rest) =>
          (match DecodePacked(f.ltype, b, prior, Capacity(f))
           case Ok(vs) => Got(StoreArray(p, f, vs), rest)
           case Error => Bad)
        case Bad => Bad
      else if |prior| >= Capacity(f) then Bad
      else match DecodeValue(f.ltype, bs, InitialValue(f.ltype, f.initial))
        case Got(v, rest) => Got(StoreArray(p, f, prior + [v]), rest)
        case Bad => Bad
    else if f.htype.OneOf? then
      match DecodeValue(f.ltype, bs, InitialValue(f.ltype, f.initial))
      case Got(v, rest) => Got(Store(p, f, Union(f.tag, v)), rest)
      case Bad => Bad
    else
      match DecodeValue(f.ltype, bs, OldValue(p.m, f))
      case Got(v, rest) => Got(Store(p, f, Single(true, v)), rest)
      case Bad => Bad
  }

  function SkipVarint(bs: Bytes): (r: Parsed<()>)
    ensures r.Got? ==> |r.rest| < |bs|
  {
    if bs == [] then Bad else if bs[0] >= 128 then SkipVarint(bs[1..]) else Got((), bs[1..])
  }

  /** pb_skip_field. */
  function SkipField(wireType: nat, bs: Bytes): (r: Parsed<()>)
    ensures r.Got? ==> |r.rest| <= |bs|
  {
    match wireType
    case 0 => SkipVarint(bs)
    case 1 => if |bs| >= 8 then Got((), bs[8..]) else Bad
    case 2 => (match TakePrefixed(bs) case Got(_, rest) => Got((), rest) case Bad => Bad)
    case 5 => if |bs| >= 4 then Got((), bs[4..]) else Bad
    case _ => Bad
  }

  /** The checks after the last field. */
  function Finish(fields: seq<Field>, p: Progress): Result<Message> {
    var required := RequiredBefore(fields, |fields|);
    if p.fixedField != 0 && p.missing != 0 then Error
    else if exists i :: 0 <= i < required && i < MAX_REQUIRED && i !in p.seen then Error
    else Ok(p.m)
  }

  /** One turn of the loop for a known field: bookkeeping, then the field itself. */
  function DecodeKnown(fields: seq<Field>, i: nat, wireType: nat, bs: Bytes, p: Progress): (r: Parsed<Progress>)
    requires i < |fields|
    ensures r.Got? ==> |r.rest| <= |bs|
    decreases fields, 0
  {
    match EnterFixed(p, fields[i])
    case Error => Bad
    case Ok(q) =>
      var index := RequiredBefore(fields, i);
      var q' := if fields[i].htype.Required? && index < MAX_REQUIRED then q.(seen := q.seen + {index}) else q;
      DecodeField(fields[i], wireType, bs, q')
  }

  /** A key without a known field is skipped by its wire type.  An empty descriptor has one exception:
      the search for tag zero stops at the terminator, whose type code reads as a bool. */
  function PassOver(fields: seq<Field>, key: nat, bs: Bytes): (r: Parsed<()>)
    ensures r.Got? ==> |r.rest| <= |bs|
  {
    if fields == [] && key / 8 == 0 then
      match DecodeVarint32(bs) case Got32(_, rest) => Got((), rest) case _ => Bad
    else SkipField(key % 8, bs)
  }

  /** The loop of pb_decode_noinit. */
  function DecodeLoop(fields: seq<Field>, bs: Bytes, p: Progress): Result<Message>
    decreases fields, 1, |bs|
  {
    if bs == [] then Finish(fields, p)
    else match DecodeVarint32(bs)
      case Got32(key, rest) =>
        if key == 0 then Finish(fields, p)
        else
          var i := Find(fields, key / 8);
          if i == |fields| then
            (match PassOver(fields, key, rest)
             case Got(_, rest') => DecodeLoop(fields, rest', p)
             case Bad => Error)
          else
            (match DecodeKnown(fields, i, key % 8, rest, p)
             case Got(p', rest') => DecodeLoop(fields, rest', p')
             case Bad => Error)
      case _ => Error
  }

  function DecodeNoInit(fields: seq<Field>, bs: Bytes, m: Message): Result<Message>
    decreases fields, 2, |bs|
  {
    DecodeLoop(fields, bs, Progress(m, {}, 0, 0))
  }

  function Decode(fields: seq<Field>, bs: Bytes): Result<Message> {
    DecodeNoInit(fields, bs, Defaults(fields))
  }
}
