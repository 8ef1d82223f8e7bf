/** Decoding what was encoded: field by field, under the same or a smaller descriptor. */
module PbProofs {
  import opened History
  import opened Coding
  import opened PbWire
  import opened PbMessage

  // ----- a decoder's descriptor that knows some of the encoder's fields

  ghost predicate SubType(dt: LType, et: LType)
    decreases dt, 0
  {
    if dt.SubMessage? then et.SubMessage? && SubFields(dt.fields, et.fields) else dt == et
  }

  ghost predicate SubField(d: Field, e: Field)
    decreases d
  {
    d.tag == e.tag && d.place == e.place && d.htype == e.htype && SubType(d.ltype, e.ltype)
  }

  ghost predicate SubFields(dfs: seq<Field>, efs: seq<Field>)
    decreases dfs
  {
    forall k :: 0 <= k < |dfs| ==> Find(efs, dfs[k].tag) < |efs| && SubField(dfs[k], efs[Find(efs, dfs[k].tag)])
  }

  /** The decoder accepts a value: strings leave room for their NUL, at every depth it knows. */
  ghost predicate Fits(dt: LType, et: LType, v: Value)
    decreases dt, 1
  {
    match dt
    case StringField(capacity) => v.Chars? && |v.b| < capacity
    case SubMessage(fields) => et.SubMessage? && v.Nested? && FitsFrom(fields, et.fields, 0, v.m)
    case _ => true
  }

  ghost predicate FitsAll(d: Field, et: LType, vs: seq<Value>)
    decreases d
  {
    forall k :: 0 <= k < |vs| ==> Fits(d.ltype, et, vs[k])
  }

  ghost predicate FitsSlot(dfs: seq<Field>, e: Field, s: Slot)
    decreases dfs, 0
  {
    var j := Find(dfs, e.tag);
    j < |dfs| && Present(e, s).Ok? ==> FitsAll(dfs[j], e.ltype, Present(e, s).value)
  }

  ghost predicate FitsFrom(dfs: seq<Field>, efs: seq<Field>, i: nat, m: Message)
    decreases dfs, 1
  {
    forall k :: i <= k < |efs| && efs[k].place in m.slots ==> FitsSlot(dfs, efs[k], m.slots[efs[k].place])
  }

  /** What the decoder's struct is expected to hold. */
  function Project(dt: LType, et: LType, v: Value): Value
    decreases dt, 0
  {
    if dt.SubMessage? && et.SubMessage? && v.Nested? then
      Nested(ProjectFrom(dt.fields, et.fields, 0, v.m, Defaults(dt.fields)))
    else v
  }

  function ProjectAll(dt: LType, et: LType, vs: seq<Value>): (r: seq<Value>)
    ensures |r| == |vs|
    decreases dt, 1, |vs|
  {
    if vs == [] then [] else [Project(dt, et, vs[0])] + ProjectAll(dt, et, vs[1..])
  }

  function NewSlot(d: Field, et: LType, vs: seq<Value>): Slot
    requires vs != []
    decreases d, 0
  {
    if IsArray(d) then Many(ProjectAll(d.ltype, et, vs))
    else if d.htype.OneOf? then Union(d.tag, Project(d.ltype, et, vs[0]))
    else Single(true, Project(d.ltype, et, vs[0]))
  }

  /** The struct after one more of the encoder's fields has been decoded. */
  function ApplyField(dfs: seq<Field>, e: Field, s: Slot, into: Message): Message
    decreases dfs, 0
  {
    var j := Find(dfs, e.tag);
    if j < |dfs| && Present(e, s).Ok? && Present(e, s).value != [] then
      Message(into.slots[dfs[j].place := NewSlot(dfs[j], e.ltype, Present(e, s).value)])
    else into
  }

  function ProjectFrom(dfs: seq<Field>, efs: seq<Field>, i: nat, m: Message, into: Message): Message
    requires i <= |efs|
    decreases dfs, 1, |efs| - i
  {
    if i == |efs| || efs[i].place !in m.slots then into
    else ProjectFrom(dfs, efs, i + 1, m, ApplyField(dfs, efs[i], m.slots[efs[i].place], into))
  }

  // ----- single values

  lemma TakeEncoded(b: Bytes, rest: Bytes)
    requires |b| < TWO_32
    ensures TakePrefixed(LengthPrefixed(b) + rest) == Got(b, rest)
  {
    hide Varint, DecodeVarint32;
    Varint32RoundTrip(|b|, b + rest);
    assert LengthPrefixed(b) + rest == Varint(|b|) + (b + rest);
  }

  lemma {:induction false} CStringWhole(b: Bytes)
    requires 0 !in b
    ensures CString(b) == b
  {
    if b != [] {
      CStringWhole(b[1..]);
    }
  }

  /** The low bits of a negative number's 64-bit word. */
  lemma LowOfNegative(n: int, size: nat)
    requires IntegerSize(size) && -(Bits(size) / 2) <= n < 0
    ensures (n + TWO_64) % Bits(size) == n + Bits(size)
  {
    if size == 1 {
      assert (n + 0x1_0000_0000_0000_0000) % 0x100 == n + 0x100;
    } else if size == 2 {
      assert (n + 0x1_0000_0000_0000_0000) % 0x1_0000 == n + 0x1_0000;
    } else if size == 4 {
      assert (n + 0x1_0000_0000_0000_0000) % 0x1_0000_0000 == n + 0x1_0000_0000;
    }
  }

  lemma SignedWord(n: int, size: nat)
    requires IntegerSize(size) && -(Bits(size) / 2) <= n < Bits(size) / 2
    ensures Signed(n % TWO_64, size) == n
  {
    if n < 0 {
      assert n % TWO_64 == n + TWO_64;
      LowOfNegative(n, size);
    } else {
      assert n % TWO_64 == n && n % Bits(size) == n;
    }
  }

  lemma SignedRoundTrip(n: int, size: nat)
    requires IntegerSize(size) && -(Bits(size) / 2) <= n < Bits(size) / 2
    ensures DecodeSigned(n % TWO_64, size) == Ok(n)
  {
    SignedWord(n, size);
    if size != 8 {
      SignedWord(n, 4);
    }
  }

  /** Numbers need no room beyond their type. */
  lemma NumberRoundTrip(t: LType, v: Value, prior: Value, rest: Bytes)
    requires Packable(t) && TypedValue(t, v)
    ensures EncodeValue(t, v).Ok?
    ensures DecodeValue(t, EncodeValue(t, v).value + rest, prior) == Got(v, rest)
  {
    if t.Fixed32? || t.Fixed64? {
      FixedNumberRoundTrip(t, v, prior, rest);
    } else {
      VarintNumberRoundTrip(t, v, prior, rest);
    }
  }

  lemma VarintNumberRoundTrip(t: LType, v: Value, prior: Value, rest: Bytes)
    requires Packable(t) && !t.Fixed32? && !t.Fixed64? && TypedValue(t, v)
    ensures EncodeValue(t, v).Ok?
    ensures DecodeValue(t, EncodeValue(t, v).value + rest, prior) == Got(v, rest)
  {
    hide Varint, DecodeVarint, DecodeVarint32, DecodeSigned, Signed, ZigZag, UnZigZag;
    match t
    case Bool => Varint32RoundTrip(v.n, rest);
    case SignedVarint(size) => VarintRoundTrip(v.n % TWO_64, rest); SignedRoundTrip(v.n, size);
    case UnsignedVarint(size) => VarintRoundTrip(v.n, rest);
    case ZigZagVarint(size) => ZigZagNumberRoundTrip(size, v, prior, rest);
  }

  lemma ZigZagNumberRoundTrip(size: nat, v: Value, prior: Value, rest: Bytes)
    requires TypedValue(ZigZagVarint(size), v)
    ensures EncodeValue(ZigZagVarint(size), v).Ok?
    ensures DecodeValue(ZigZagVarint(size), EncodeValue(ZigZagVarint(size), v).value + rest, prior) == Got(v, rest)
  {
    hide Varint, DecodeVarint, Signed, ZigZag, UnZigZag;
    ZigZagRoundTrip(v.n);
    VarintRoundTrip(ZigZag(v.n), rest);
    SignedWord(v.n, size);
  }

  lemma FixedNumberRoundTrip(t: LType, v: Value, prior: Value, rest: Bytes)
    requires (t.Fixed32? || t.Fixed64?) && TypedValue(t, v)
    ensures EncodeValue(t, v).Ok?
    ensures DecodeValue(t, EncodeValue(t, v).value + rest, prior) == Got(v, rest)
  {
    hide EncodeFixed, DecodeFixed, Pow256;
    var width := if t.Fixed32? then 4 else 8;
    Pow256Values();
    FixedRoundTrip(v.n, width);
    var b := EncodeFixed(v.n, width);
    assert (b + rest)[..width] == b && (b + rest)[width..] == rest;
  }

  lemma CharsRoundTrip(t: LType, v: Value, prior: Value, rest: Bytes)
    requires !Packable(t) && !t.SubMessage? && TypedValue(t, v)
    requires EncodeValue(t, v).Ok? && |EncodeValue(t, v).value| < TWO_32
    ensures DecodeValue(t, EncodeValue(t, v).value + rest, prior) == if Fits(t, t, v) then Got(v, rest) else Bad
  {
    if t.StringField? {
      CStringWhole(v.b);
    }
    assert EncodeValue(t, v).value == LengthPrefixed(v.b);
    TakeEncoded(v.b, rest);
    if t.FixedLengthBytes? && t.size == 0 {
      assert seq(0, _ => 0) == v.b;
    }
  }

  lemma {:induction false} SkipVarintEncoded(n: nat, rest: Bytes)
    ensures SkipVarint(Varint(n) + rest) == Got((), rest)
  {
    if n < 128 {
      assert ([n] + rest)[1..] == rest;
    } else {
      VarintSplit(n, rest);
      SkipVarintEncoded(n / 128, rest);
    }
  }

  /** Skipping by wire type passes over exactly one encoded value. */
  lemma SkipEncoded(t: LType, v: Value, rest: Bytes)
    requires EncodeValue(t, v).Ok? && |EncodeValue(t, v).value| < TWO_32
    ensures SkipField(WireType(t), EncodeValue(t, v).value + rest) == Got((), rest)
  {
    var b := EncodeValue(t, v).value;
    if t.Fixed32? || t.Fixed64? {
      assert (b + rest)[|b|..] == rest;
    } else if Packable(t) {
      SkipVarintEncoded(if t.Bool? then (if v.n != 0 then 1 else 0) else if t.ZigZagVarint? then ZigZag(v.n) else v.n % TWO_64, rest);
    } else {
      var contents := if t.SubMessage? then EncodeMessage(t.fields, v.m).value else if t.StringField? then CString(v.b) else v.b;
      TakeEncoded(contents, rest);
    }
  }

  lemma NothingPacked(t: LType, prefix: seq<Value>, max: nat)
    ensures EncodePacked(t, []) == Ok([]) && (|prefix| <= max ==> DecodePacked(t, [], prefix, max) == Ok(prefix + []))
  {
    assert prefix + [] == prefix;
  }

  /** One more number in front of a packed array. */
  lemma PackedStep(t: LType, v: Value, vs: seq<Value>, prefix: seq<Value>, max: nat)
    requires Packable(t) && TypedValue(t, v) && EncodePacked(t, vs).Ok? && |prefix| < max
    ensures EncodeValue(t, v).Ok? && EncodePacked(t, [v] + vs) == Ok(EncodeValue(t, v).value + EncodePacked(t, vs).value)
    ensures DecodePacked(t, EncodePacked(t, [v] + vs).value, prefix, max)
         == DecodePacked(t, EncodePacked(t, vs).value, prefix + [v], max)
  {
    hide EncodeValue, DecodeValue;
    assert ([v] + vs)[1..] == vs;
    NumberRoundTrip(t, v, Number(0), EncodePacked(t, vs).value);
  }

  lemma {:induction false} PackedRoundTrip(t: LType, vs: seq<Value>, prefix: seq<Value>, max: nat)
    requires Packable(t) && forall k :: 0 <= k < |vs| ==> TypedValue(t, vs[k])
    requires |prefix| + |vs| <= max
    ensures EncodePacked(t, vs).Ok?
    ensures DecodePacked(t, EncodePacked(t, vs).value, prefix, max) == Ok(prefix + vs)
    decreases |vs|
  {
    hide EncodePacked, DecodePacked, EncodeValue, DecodeValue;
    if vs == [] {
      NothingPacked(t, prefix, max);
    } else {
      PackedRoundTrip(t, vs[1..], prefix + [vs[0]], max);
      PackedStep(t, vs[0], vs[1..], prefix, max);
      assert [vs[0]] + vs[1..] == vs;
      assert (prefix + [vs[0]]) + vs[1..] == prefix + vs;
    }
  }

  // ----- one turn of the decoding loop

  lemma KeyRead(tag: nat, wireType: nat, rest: Bytes)
    requires 1 <= tag <= MAX_TAG && wireType < 8
    ensures DecodeVarint32(TagBytes(tag, wireType) + rest) == Got32(tag * 8 + wireType, rest)
  {
    Varint32RoundTrip(tag * 8 + wireType, rest);
  }

  lemma {:induction false} FindIs(fields: seq<Field>, j: nat)
    requires j < |fields|
    requires forall a, b :: 0 <= a < b < |fields| ==> fields[a].tag != fields[b].tag
    ensures Find(fields, fields[j].tag) == j
  {
  }

  /** A field with an unknown tag is passed over. */
  lemma LoopSkips(dfs: seq<Field>, tag: nat, wireType: nat, b: Bytes, rest: Bytes, p: Progress)
    requires 1 <= tag <= MAX_TAG && wireType < 8 && Find(dfs, tag) == |dfs|
    requires SkipField(wireType, b + rest) == Got((), rest)
    ensures DecodeLoop(dfs, TagBytes(tag, wireType) + b + rest, p) == DecodeLoop(dfs, rest, p)
  {
    hide Varint, DecodeVarint32, SkipField, Finish;
    KeyRead(tag, wireType, b + rest);
    assert TagBytes(tag, wireType) + b + rest == TagBytes(tag, wireType) + (b + rest);
    assert (tag * 8 + wireType) / 8 == tag && (tag * 8 + wireType) % 8 == wireType;
  }

  function Noted(dfs: seq<Field>, j: nat, p: Progress): Progress
    requires j < |dfs|
  {
    var index := RequiredBefore(dfs, j);
    if dfs[j].htype.Required? && index < MAX_REQUIRED then p.(seen := p.seen + {index}) else p
  }

  /** A known field is entered, noted and decoded. */
  lemma LoopKnown(dfs: seq<Field>, j: nat, wireType: nat, b: Bytes, rest: Bytes, p: Progress, q: Progress)
    requires j < |dfs| && Find(dfs, dfs[j].tag) == j && 1 <= dfs[j].tag <= MAX_TAG && wireType < 8
    requires EnterFixed(p, dfs[j]) == Ok(q)
    ensures DecodeLoop(dfs, TagBytes(dfs[j].tag, wireType) + b + rest, p) ==
              match DecodeField(dfs[j], wireType, b + rest, Noted(dfs, j, q))
              case Got(p', rest') => DecodeLoop(dfs, rest', p')
              case Bad => Error
  {
    hide Varint, DecodeVarint32, DecodeField, Finish;
    var tag := dfs[j].tag;
    KeyRead(tag, wireType, b + rest);
    assert TagBytes(tag, wireType) + b + rest == TagBytes(tag, wireType) + (b + rest);
    assert (tag * 8 + wireType) / 8 == tag && (tag * 8 + wireType) % 8 == wireType;
  }

  function StoreValue(d: Field, v: Value, p: Progress): Progress {
    if IsArray(d) then StoreArray(p, d, OldArray(p.m, d) + [v])
    else if d.htype.OneOf? then Store(p, d, Union(d.tag, v))
    else Store(p, d, Single(true, v))
  }

  function Entered(d: Field, p: Progress): Progress {
    match EnterFixed(p, d)
    case Ok(q) => q
    case Error => p
  }

  /** Storing decoded values one after the other. */
  function Taken(dfs: seq<Field>, j: nat, vs: seq<Value>, p: Progress): Progress
    requires j < |dfs|
    decreases |vs|
  {
    if vs == [] then p
    else Taken(dfs, j, vs[1..], StoreValue(dfs[j], vs[0], Noted(dfs, j, Entered(dfs[j], p))))
  }

  /** The decoder has room for `n` more values of a field, and has not touched a singular one. */
  ghost predicate Ready(d: Field, p: Progress, n: nat) {
    n > 0 ==>
      && EnterFixed(p, d).Ok?
      && (IsArray(d) ==> |OldArray(Entered(d, p).m, d)| + n <= Capacity(d))
      && (!IsArray(d) ==> n == 1)
      && (!IsArray(d) && !d.htype.OneOf? ==> OldValue(p.m, d) == InitialValue(d.ltype, d.initial))
  }

  lemma StillReady(dfs: seq<Field>, j: nat, v: Value, p: Progress, n: nat)
    requires j < |dfs| && n > 0 && Ready(dfs[j], p, n)
    ensures Ready(dfs[j], StoreValue(dfs[j], v, Noted(dfs, j, Entered(dfs[j], p))), n - 1)
  {
  }

  /** A value read in place of a field's next element is stored, and reading goes on behind it. */
  lemma LoopTakes(dfs: seq<Field>, j: nat, wireType: nat, b: Bytes, rest: Bytes, p: Progress, n: nat)
    requires j < |dfs| && Find(dfs, dfs[j].tag) == j && 1 <= dfs[j].tag <= MAX_TAG && wireType < 8
    requires n > 0 && Ready(dfs[j], p, n) && !(IsPacked(dfs[j]) && wireType == 2)
    ensures DecodeLoop(dfs, TagBytes(dfs[j].tag, wireType) + b + rest, p) ==
              match DecodeValue(dfs[j].ltype, b + rest, InitialValue(dfs[j].ltype, dfs[j].initial))
              case Got(v, rest') => DecodeLoop(dfs, rest', StoreValue(dfs[j], v, Noted(dfs, j, Entered(dfs[j], p))))
              case Bad => Error
  {
    hide TagBytes, DecodeVarint32, DecodeValue, DecodeLoop, InitialValue;
    LoopKnown(dfs, j, wireType, b, rest, p, Entered(dfs[j], p));
  }

  // ----- whole fields and messages

  lemma ValueRoundTrip(d: Field, et: LType, v: Value, rest: Bytes)
    requires SubType(d.ltype, et) && TypedValue(et, v)
    requires d.ltype.SubMessage? ==> ProperFields(d.ltype.fields) && ProperFields(et.fields)
    requires EncodeValue(et, v).Ok? && |EncodeValue(et, v).value| < TWO_32
    ensures DecodeValue(d.ltype, EncodeValue(et, v).value + rest, InitialValue(d.ltype, d.initial))
         == if Fits(d.ltype, et, v) then Got(Project(d.ltype, et, v), rest) else Bad
    decreases d
  {
    var prior := InitialValue(d.ltype, d.initial);
    match d.ltype
    case SubMessage(fields) =>
      TakeEncoded(EncodeMessage(et.fields, v.m).value, rest);
      MessageRoundTrip(fields, et.fields, v.m);
    case _ =>
      if Packable(d.ltype) {
        NumberRoundTrip(et, v, prior, rest);
      } else {
        CharsRoundTrip(et, v, prior, rest);
      }
  }

  lemma {:induction false} TaggedRoundTrip(dfs: seq<Field>, j: nat, e: Field, vs: seq<Value>, rest: Bytes, p: Progress)
    requires ProperFields(dfs) && ProperField(e) && j < |dfs| && Find(dfs, e.tag) == j && SubField(dfs[j], e)
    requires !IsPacked(e) && forall k :: 0 <= k < |vs| ==> TypedValue(e.ltype, vs[k])
    requires Ready(dfs[j], p, |vs|)
    requires EncodeTagged(e.tag, e.ltype, vs).Ok? && |EncodeTagged(e.tag, e.ltype, vs).value| < TWO_32
    ensures DecodeLoop(dfs, EncodeTagged(e.tag, e.ltype, vs).value + rest, p)
         == if FitsAll(dfs[j], e.ltype, vs) then DecodeLoop(dfs, rest, Taken(dfs, j, ProjectAll(dfs[j].ltype, e.ltype, vs), p))
            else Error
    decreases dfs, 1, |vs|
  {
    hide DecodeLoop, DecodeValue, TagBytes, StoreValue, Noted, EnterFixed;
    if vs == [] {
      assert [] + rest == rest;
    } else {
      var d := dfs[j];
      var tag, b := TagBytes(e.tag, WireType(e.ltype)), EncodeValue(e.ltype, vs[0]).value;
      var more := EncodeTagged(e.tag, e.ltype, vs[1..]).value;
      assert (tag + b + more) + rest == tag + b + (more + rest);
      LoopTakes(dfs, j, WireType(e.ltype), b, more + rest, p, |vs|);
      ValueRoundTrip(d, e.ltype, vs[0], more + rest);
      if Fits(d.ltype, e.ltype, vs[0]) {
        var v := Project(d.ltype, e.ltype, vs[0]);
        StillReady(dfs, j, v, p, |vs|);
        TaggedRoundTrip(dfs, j, e, vs[1..], rest, StoreValue(d, v, Noted(dfs, j, Entered(d, p))));
      }
    }
  }

  /** What storing all values of an array amounts to. */
  lemma {:induction false} TakenArray(dfs: seq<Field>, j: nat, vs: seq<Value>, p: Progress)
    requires j < |dfs| && IsArray(dfs[j]) && vs != [] && EnterFixed(p, dfs[j]).Ok?
    requires |OldArray(Entered(dfs[j], p).m, dfs[j])| + |vs| <= Capacity(dfs[j])
    ensures var d, q := dfs[j], Entered(dfs[j], p);
            var all := OldArray(q.m, d) + vs;
            Taken(dfs, j, vs, p) == StoreArray(q, d, all)
    decreases |vs|
  {
    hide StoreArray, StoreValue, Noted, OldArray;
    var d, q := dfs[j], Entered(dfs[j], p);
    var p' := StoreValue(d, vs[0], Noted(dfs, j, q));
    var stored := OldArray(q.m, d) + [vs[0]];
    ArrayStep(dfs, j, vs[0], p);
    if |vs| > 1 {
      TakenArray(dfs, j, vs[1..], p');
      StoreTwice(q, d, stored, stored + vs[1..]);
      assert stored + vs[1..] == OldArray(q.m, d) + vs;
    } else {
      assert stored == OldArray(q.m, d) + vs;
    }
  }

  /** Storing one element. */
  lemma ArrayStep(dfs: seq<Field>, j: nat, v: Value, p: Progress)
    requires j < |dfs| && IsArray(dfs[j]) && EnterFixed(p, dfs[j]).Ok?
    requires |OldArray(Entered(dfs[j], p).m, dfs[j])| < Capacity(dfs[j])
    ensures var d, q := dfs[j], Entered(dfs[j], p);
            var p' := StoreValue(d, v, Noted(dfs, j, q));
            var stored := OldArray(q.m, d) + [v];
            && p' == StoreArray(q, d, stored) && EnterFixed(p', d).Ok? && Entered(d, p') == p' && OldArray(p'.m, d) == stored
  {
  }

  lemma StoreTwice(q: Progress, d: Field, first: seq<Value>, second: seq<Value>)
    ensures StoreArray(StoreArray(q, d, first), d, second) == StoreArray(q, d, second)
  {
    assert q.m.slots[d.place := Many(first)][d.place := Many(second)] == q.m.slots[d.place := Many(second)];
  }

  /** A field the decoder has not come to yet. */
  ghost predicate Fresh(d: Field, p: Progress) {
    && p.missing == 0 && p.fixedField != d.tag
    && (!d.htype.OneOf? ==> d.place in p.m.slots && p.m.slots[d.place] == InitialSlot(d))
  }

  lemma FreshIsReady(d: Field, p: Progress, n: nat)
    requires Fresh(d, p) && (if IsArray(d) then n <= Capacity(d) else n <= 1)
    ensures Ready(d, p, n) && EnterFixed(p, d).Ok? && (IsArray(d) ==> OldArray(Entered(d, p).m, d) == [])
  {
  }

  /** The effect of one whole field on the decoder. */
  ghost predicate Advanced(dfs: seq<Field>, e: Field, s: Slot, p: Progress, p': Progress) {
    var j := Find(dfs, e.tag);
    && p'.m == ApplyField(dfs, e, s, p.m)
    && p'.missing == 0 && (p'.fixedField == p.fixedField || p'.fixedField == e.tag)
    && p.seen <= p'.seen
    && (j < |dfs| && e.htype.Required? && RequiredBefore(dfs, j) < MAX_REQUIRED ==> RequiredBefore(dfs, j) in p'.seen)
  }

  lemma TakenAdvances(dfs: seq<Field>, e: Field, s: Slot, p: Progress)
    requires var j := Find(dfs, e.tag);
             j < |dfs| && Fresh(dfs[j], p) && dfs[j].htype == e.htype && dfs[j].place == e.place
    requires TypedSlot(e, s) && Present(e, s).value != []
    ensures var j := Find(dfs, e.tag);
            Advanced(dfs, e, s, p, Taken(dfs, j, ProjectAll(dfs[j].ltype, e.ltype, Present(e, s).value), p))
  {
    var j := Find(dfs, e.tag);
    var d, vs := dfs[j], Present(e, s).value;
    var pvs := ProjectAll(d.ltype, e.ltype, vs);
    FreshIsReady(d, p, |vs|);
    if IsArray(d) {
      TakenArray(dfs, j, pvs, p);
      assert OldArray(Entered(d, p).m, d) + pvs == pvs;
      assert Entered(d, p).m.slots[d.place := Many(pvs)] == p.m.slots[d.place := Many(pvs)];
    } else {
      assert pvs[1..] == [];
    }
  }

  /** The fields a decoder does not know are passed over whole. */
  lemma {:induction false} SkipTagged(dfs: seq<Field>, e: Field, vs: seq<Value>, rest: Bytes, p: Progress)
    requires 1 <= e.tag <= MAX_TAG && Find(dfs, e.tag) == |dfs|
    requires EncodeTagged(e.tag, e.ltype, vs).Ok? && |EncodeTagged(e.tag, e.ltype, vs).value| < TWO_32
    ensures DecodeLoop(dfs, EncodeTagged(e.tag, e.ltype, vs).value + rest, p) == DecodeLoop(dfs, rest, p)
    decreases |vs|
  {
    hide DecodeLoop, TagBytes, SkipField;
    if vs == [] {
      assert [] + rest == rest;
    } else {
      var tag, b := TagBytes(e.tag, WireType(e.ltype)), EncodeValue(e.ltype, vs[0]).value;
      var more := EncodeTagged(e.tag, e.ltype, vs[1..]).value;
      assert (tag + b + more) + rest == tag + b + (more + rest);
      SkipEncoded(e.ltype, vs[0], more + rest);
      LoopSkips(dfs, e.tag, WireType(e.ltype), b, more + rest, p);
      SkipTagged(dfs, e, vs[1..], rest, p);
    }
  }

  lemma {:induction false} NumbersProjectToThemselves(t: LType, vs: seq<Value>)
    requires Packable(t)
    ensures ProjectAll(t, t, vs) == vs
  {
    if vs != [] {
      NumbersProjectToThemselves(t, vs[1..]);
    }
  }

  /** A packed array, known or unknown. */
  lemma PackedField(dfs: seq<Field>, e: Field, s: Slot, rest: Bytes, p: Progress)
    requires ProperField(e) && TypedSlot(e, s) && IsPacked(e) && Present(e, s).value != []
    requires var j := Find(dfs, e.tag); j < |dfs| ==> SubField(dfs[j], e) && Fresh(dfs[j], p)
    requires EncodeField(e, s).Ok? && |EncodeField(e, s).value| < TWO_32
    ensures var j := Find(dfs, e.tag);
            DecodeLoop(dfs, EncodeField(e, s).value + rest, p) == DecodeLoop(dfs, rest,
              if j == |dfs| then p else Taken(dfs, j, ProjectAll(dfs[j].ltype, e.ltype, Present(e, s).value), p))
  {
    hide DecodeLoop, TagBytes, TakePrefixed, LengthPrefixed;
    var j, vs := Find(dfs, e.tag), Present(e, s).value;
    PackedRoundTrip(e.ltype, vs, [], |vs|);
    var contents := EncodePacked(e.ltype, vs).value;
    var tag, b := TagBytes(e.tag, 2), LengthPrefixed(contents);
    assert EncodeField(e, s).value == tag + b && (tag + b) + rest == tag + b + rest;
    assert |contents| < TWO_32 by { PrefixedIsLonger(contents); }
    TakeEncoded(contents, rest);
    if j == |dfs| {
      LoopSkips(dfs, e.tag, 2, b, rest, p);
    } else {
      var d := dfs[j];
      FreshIsReady(d, p, |vs|);
      LoopKnown(dfs, j, 2, b, rest, p, Entered(d, p));
      PackedRoundTrip(e.ltype, vs, [], Capacity(d));
      NumbersProjectToThemselves(e.ltype, vs);
      TakenArray(dfs, j, vs, p);
      assert [] + vs == vs;
    }
  }

  lemma PrefixedIsLonger(b: Bytes)
    ensures |b| < |LengthPrefixed(b)|
  {
  }

  /** Decoding what one field of the encoder produced. */
  lemma FieldRoundTrip(dfs: seq<Field>, e: Field, s: Slot, rest: Bytes, p: Progress) returns (p': Progress)
    requires ProperFields(dfs) && ProperField(e) && TypedSlot(e, s) && p.missing == 0
    requires var j := Find(dfs, e.tag); j < |dfs| ==> SubField(dfs[j], e) && Fresh(dfs[j], p)
    requires EncodeField(e, s).Ok? && |EncodeField(e, s).value| < TWO_32
    ensures DecodeLoop(dfs, EncodeField(e, s).value + rest, p)
         == if FitsSlot(dfs, e, s) then DecodeLoop(dfs, rest, p') else Error
    ensures Advanced(dfs, e, s, p, p')
    decreases dfs, 2
  {
    hide DecodeLoop, EncodeTagged, EncodePacked, Taken, Fits;
    var j, vs := Find(dfs, e.tag), Present(e, s).value;
    p' := p;
    if vs == [] {
      assert EncodeField(e, s).value == [] by { TaggedNothing(e); }
      assert [] + rest == rest;
    } else if IsPacked(e) {
      PackedField(dfs, e, s, rest, p);
      PackedFits(dfs, e, s);
      if j < |dfs| {
        p' := Taken(dfs, j, ProjectAll(dfs[j].ltype, e.ltype, vs), p);
        TakenAdvances(dfs, e, s, p);
      }
    } else if j == |dfs| {
      SkipTagged(dfs, e, vs, rest, p);
    } else {
      FreshIsReady(dfs[j], p, |vs|);
      TaggedRoundTrip(dfs, j, e, vs, rest, p);
      p' := Taken(dfs, j, ProjectAll(dfs[j].ltype, e.ltype, vs), p);
      TakenAdvances(dfs, e, s, p);
    }
  }

  lemma TaggedNothing(e: Field)
    ensures EncodeTagged(e.tag, e.ltype, []) == Ok([])
  {
  }

  lemma PackedFits(dfs: seq<Field>, e: Field, s: Slot)
    requires IsPacked(e)
    requires var j := Find(dfs, e.tag); j < |dfs| ==> SubField(dfs[j], e)
    ensures FitsSlot(dfs, e, s)
  {
  }

  /** Between two of the encoder's fields: those from `i` on are untouched, those before it are noted. */
  ghost predicate Awaits(dfs: seq<Field>, efs: seq<Field>, i: nat, p: Progress) {
    && p.missing == 0
    && (forall k :: i <= k < |efs| ==> efs[k].tag != p.fixedField)
    && (forall j :: 0 <= j < |dfs| ==>
          && (Find(efs, dfs[j].tag) >= i && !dfs[j].htype.OneOf? ==>
                dfs[j].place in p.m.slots && p.m.slots[dfs[j].place] == InitialSlot(dfs[j]))
          && (Find(efs, dfs[j].tag) < i && dfs[j].htype.Required? && RequiredBefore(dfs, j) < MAX_REQUIRED ==>
                RequiredBefore(dfs, j) in p.seen))
  }

  lemma AwaitsNext(dfs: seq<Field>, efs: seq<Field>, i: nat, s: Slot, p: Progress, p': Progress)
    requires ProperFields(dfs) && ProperFields(efs) && SubFields(dfs, efs) && i < |efs|
    requires Awaits(dfs, efs, i, p) && Advanced(dfs, efs[i], s, p, p')
    ensures Awaits(dfs, efs, i + 1, p')
  {
    var j0 := Find(dfs, efs[i].tag);
    FindIs(efs, i);
    forall j | 0 <= j < |dfs|
      ensures Find(efs, dfs[j].tag) >= i + 1 && !dfs[j].htype.OneOf? ==>
                dfs[j].place in p'.m.slots && p'.m.slots[dfs[j].place] == InitialSlot(dfs[j])
      ensures Find(efs, dfs[j].tag) < i + 1 && dfs[j].htype.Required? && RequiredBefore(dfs, j) < MAX_REQUIRED ==>
                RequiredBefore(dfs, j) in p'.seen
    {
      FindIs(dfs, j);
      if j0 < |dfs| && j != j0 && dfs[j].place == dfs[j0].place {
        assert dfs[j].htype.OneOf?;
      }
    }
  }

  lemma {:induction false} RequiredExists(fields: seq<Field>, n: nat, r: nat) returns (j: nat)
    requires n <= |fields| && r < RequiredBefore(fields, n)
    ensures j < n && fields[j].htype.Required? && RequiredBefore(fields, j) == r
  {
    if fields[n - 1].htype.Required? && r == RequiredBefore(fields, n - 1) {
      j := n - 1;
    } else {
      j := RequiredExists(fields, n - 1, r);
    }
  }

  /** With every field of the encoder behind it, the decoder passes its final checks. */
  lemma FinishAccepts(dfs: seq<Field>, efs: seq<Field>, p: Progress)
    requires SubFields(dfs, efs) && Awaits(dfs, efs, |efs|, p)
    ensures Finish(dfs, p) == Ok(p.m)
  {
    forall i | 0 <= i < RequiredBefore(dfs, |dfs|) && i < MAX_REQUIRED ensures i in p.seen {
      var j := RequiredExists(dfs, |dfs|, i);
      assert Find(efs, dfs[j].tag) < |efs|;
    }
  }

  /** The field the encoder writes next is one the decoder has not met. */
  lemma NextIsFresh(dfs: seq<Field>, efs: seq<Field>, i: nat, p: Progress)
    requires ProperFields(efs) && SubFields(dfs, efs) && i < |efs| && Awaits(dfs, efs, i, p)
    ensures p.missing == 0 && ProperField(efs[i])
    ensures var j := Find(dfs, efs[i].tag); j < |dfs| ==> SubField(dfs[j], efs[i]) && Fresh(dfs[j], p)
  {
    hide SubField, ProperField, InitialSlot;
    var j := Find(dfs, efs[i].tag);
    FindIs(efs, i);
    if j < |dfs| {
      assert Find(efs, dfs[j].tag) == i;
    }
  }

  lemma NextOfAll(dfs: seq<Field>, efs: seq<Field>, i: nat, m: Message, into: Message)
    requires i < |efs| && efs[i].place in m.slots && EncodeFrom(efs, i, m).Ok?
    ensures var s := m.slots[efs[i].place];
            && EncodeField(efs[i], s).Ok? && EncodeFrom(efs, i + 1, m).Ok?
            && EncodeFrom(efs, i, m).value == EncodeField(efs[i], s).value + EncodeFrom(efs, i + 1, m).value
            && (FitsFrom(dfs, efs, i, m) <==> FitsSlot(dfs, efs[i], s) && FitsFrom(dfs, efs, i + 1, m))
            && ProjectFrom(dfs, efs, i, m, into) == ProjectFrom(dfs, efs, i + 1, m, ApplyField(dfs, efs[i], s, into))
  {
    hide EncodeField, FitsSlot, ApplyField;
  }

  lemma NoFieldsLeft(dfs: seq<Field>, efs: seq<Field>, m: Message, p: Progress)
    requires SubFields(dfs, efs) && Awaits(dfs, efs, |efs|, p)
    ensures FitsFrom(dfs, efs, |efs|, m) && EncodeFrom(efs, |efs|, m) == Ok([])
    ensures DecodeLoop(dfs, [], p) == Ok(ProjectFrom(dfs, efs, |efs|, m, p.m))
  {
    FinishAccepts(dfs, efs, p);
    hide Awaits, SubFields, Finish;
  }

  lemma {:induction false} FieldsRoundTrip(dfs: seq<Field>, efs: seq<Field>, i: nat, m: Message, p: Progress)
    requires ProperFields(dfs) && ProperFields(efs) && SubFields(dfs, efs) && TypedMessage(efs, m)
    requires i <= |efs| && Awaits(dfs, efs, i, p)
    requires EncodeFrom(efs, i, m).Ok? && |EncodeFrom(efs, i, m).value| < TWO_32
    ensures DecodeLoop(dfs, EncodeFrom(efs, i, m).value, p)
         == if FitsFrom(dfs, efs, i, m) then Ok(ProjectFrom(dfs, efs, i, m, p.m)) else Error
    decreases dfs, 3, |efs| - i
  {
    hide DecodeLoop, EncodeFrom, EncodeField, FitsFrom, FitsSlot, ProjectFrom, ApplyField, Awaits, SubField, Fresh, ProperFields, SubFields;
    if i == |efs| {
      NoFieldsLeft(dfs, efs, m, p);
    } else {
      var e, s := efs[i], m.slots[efs[i].place];
      NextOfAll(dfs, efs, i, m, p.m);
      var rest := EncodeFrom(efs, i + 1, m).value;
      NextIsFresh(dfs, efs, i, p);
      var p' := FieldRoundTrip(dfs, e, s, rest, p);
      AwaitsNext(dfs, efs, i, s, p, p');
      FieldsRoundTrip(dfs, efs, i + 1, m, p');
    }
  }

  lemma {:induction false} DefaultsAwait(dfs: seq<Field>, n: nat)
    requires n <= |dfs|
    requires forall i, j :: 0 <= i < j < n && dfs[i].place == dfs[j].place ==> dfs[i].htype.OneOf? && dfs[j].htype.OneOf?
    ensures forall j :: 0 <= j < n && !dfs[j].htype.OneOf? ==>
              dfs[j].place in DefaultSlots(dfs[..n]) && DefaultSlots(dfs[..n])[dfs[j].place] == InitialSlot(dfs[j])
  {
    if n > 0 {
      DefaultsAwait(dfs, n - 1);
      assert dfs[..n][..n - 1] == dfs[..n - 1];
    }
  }

  /** Decoding an encoded message under a descriptor that knows some of its fields: it succeeds exactly
      when every string due for it leaves room for a NUL, and then yields the projection onto the known fields. */
  lemma MessageRoundTrip(dfs: seq<Field>, efs: seq<Field>, m: Message)
    requires ProperFields(dfs) && ProperFields(efs) && SubFields(dfs, efs) && TypedMessage(efs, m)
    requires EncodeMessage(efs, m).Ok? && |EncodeMessage(efs, m).value| < TWO_32
    ensures DecodeNoInit(dfs, EncodeMessage(efs, m).value, Defaults(dfs))
         == if FitsFrom(dfs, efs, 0, m) then Ok(ProjectFrom(dfs, efs, 0, m, Defaults(dfs))) else Error
    decreases dfs, 9
  {
    var p := Progress(Defaults(dfs), {}, 0, 0);
    DefaultsAwait(dfs, |dfs|);
    assert dfs[..|dfs|] == dfs;
    assert Awaits(dfs, efs, 0, p);
    FieldsRoundTrip(dfs, efs, 0, m, p);
  }
}
