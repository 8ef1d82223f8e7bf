/** The whole-message results: what a decoded struct agrees on with the encoded one. */
module PbRoundTrip {
  import opened Coding
  import opened PbMessage
  import opened PbProofs

  // ----- agreement of two structs on the fields that are present

  ghost predicate SameValue(dt: LType, et: LType, v: Value, v': Value)
    decreases dt, 1
  {
    match dt
    case SubMessage(fields) => et.SubMessage? && v.Nested? && v'.Nested? && SameKnown(fields, et.fields, v.m, v'.m)
    case _ => v == v'
  }

  ghost predicate SameSlot(d: Field, e: Field, s: Slot, s': Slot)
    decreases d
  {
    match d.htype
    case Required => s.Single? && s'.Single? && SameValue(d.ltype, e.ltype, s.v, s'.v)
    case Optional => s.Single? && s'.Single? && s.has == s'.has && (s.has ==> SameValue(d.ltype, e.ltype, s.v, s'.v))
    case Implicit => s.Single? && s'.Single? && SameValue(d.ltype, e.ltype, s.v, s'.v)
    case OneOf =>
      && s.Union? && s'.Union? && (s.which == d.tag <==> s'.which == d.tag)
      && (s.which == d.tag ==> SameValue(d.ltype, e.ltype, s.v, s'.v))
    case _ =>
      && s.Many? && s'.Many? && |s.vs| == |s'.vs|
      && forall k :: 0 <= k < |s.vs| ==> SameValue(d.ltype, e.ltype, s.vs[k], s'.vs[k])
  }

  /** The second struct holds, for every field of the first descriptor, what the first struct holds
      for the field of the second descriptor with the same tag. */
  ghost predicate SameKnown(dfs: seq<Field>, efs: seq<Field>, m: Message, m': Message)
    decreases dfs, 0
  {
    forall j :: 0 <= j < |dfs| ==>
      var i := Find(efs, dfs[j].tag);
      && i < |efs| && efs[i].place in m.slots && dfs[j].place in m'.slots
      && SameSlot(dfs[j], efs[i], m.slots[efs[i].place], m'.slots[dfs[j].place])
  }

  // ----- well-typed messages always encode

  lemma TypedValueEncodes(t: LType, v: Value)
    requires TypedValue(t, v)
    ensures EncodeValue(t, v).Ok?
    decreases t, 0
  {
    match t
    case SubMessage(fields) => TypedMessageEncodes(fields, v.m);
    case _ =>
  }

  lemma {:induction false} TypedValuesEncode(f: Field, vs: seq<Value>)
    requires forall k :: 0 <= k < |vs| ==> TypedValue(f.ltype, vs[k])
    ensures EncodePacked(f.ltype, vs).Ok? && EncodeTagged(f.tag, f.ltype, vs).Ok?
    decreases f, 0, |vs|
  {
    if vs != [] {
      match f { case Field(_, _, t, _, _) => TypedValueEncodes(t, vs[0]); }
      TypedValuesEncode(f, vs[1..]);
    }
  }

  lemma TypedFieldEncodes(f: Field, s: Slot)
    requires TypedSlot(f, s)
    ensures Present(f, s).Ok? && EncodeField(f, s).Ok?
    decreases f, 1
  {
    TypedValuesEncode(f, Present(f, s).value);
  }

  lemma {:induction false} TypedFieldsEncode(fields: seq<Field>, i: nat, m: Message)
    requires i <= |fields| && TypedMessage(fields, m)
    ensures EncodeFrom(fields, i, m).Ok?
    decreases fields, 0, |fields| - i
  {
    if i < |fields| {
      TypedFieldEncodes(fields[i], m.slots[fields[i].place]);
      TypedFieldsEncode(fields, i + 1, m);
    }
  }

  lemma TypedMessageEncodes(fields: seq<Field>, m: Message)
    requires TypedMessage(fields, m)
    ensures EncodeMessage(fields, m).Ok?
    decreases fields, 1
  {
    TypedFieldsEncode(fields, 0, m);
  }

  // ----- the projection, slot by slot

  /** Whether the encoder's field `k` writes to place `q` of the decoder's struct. */
  ghost predicate Writes(dfs: seq<Field>, efs: seq<Field>, m: Message, k: nat, q: nat) {
    && k < |efs| && efs[k].place in m.slots
    && var j := Find(dfs, efs[k].tag);
       j < |dfs| && dfs[j].place == q && Present(efs[k], m.slots[efs[k].place]).Ok?
       && Present(efs[k], m.slots[efs[k].place]).value != []
  }

  lemma {:induction false} ProjectKeeps(dfs: seq<Field>, efs: seq<Field>, i: nat, m: Message, into: Message, q: nat)
    requires i <= |efs| && (forall k :: i <= k < |efs| ==> !Writes(dfs, efs, m, k, q))
    ensures q in into.slots ==> var r := ProjectFrom(dfs, efs, i, m, into); q in r.slots && r.slots[q] == into.slots[q]
    decreases |efs| - i
  {
    if i < |efs| && efs[i].place in m.slots {
      assert !Writes(dfs, efs, m, i, q);
      ProjectKeeps(dfs, efs, i + 1, m, ApplyField(dfs, efs[i], m.slots[efs[i].place], into), q);
    }
  }

  lemma {:induction false} ProjectWrites(dfs: seq<Field>, efs: seq<Field>, i: nat, m: Message, into: Message, k: nat, q: nat)
    requires i <= k < |efs| && Writes(dfs, efs, m, k, q)
    requires forall k' :: k < k' < |efs| ==> !Writes(dfs, efs, m, k', q)
    requires forall k' :: 0 <= k' < |efs| ==> efs[k'].place in m.slots
    ensures var r := ProjectFrom(dfs, efs, i, m, into);
            q in r.slots
            && r.slots[q] == NewSlot(dfs[Find(dfs, efs[k].tag)], efs[k].ltype, Present(efs[k], m.slots[efs[k].place]).value)
    decreases k - i
  {
    var next := ApplyField(dfs, efs[i], m.slots[efs[i].place], into);
    if i == k {
      ProjectKeeps(dfs, efs, i + 1, m, next, q);
    } else {
      ProjectWrites(dfs, efs, i + 1, m, next, k, q);
    }
  }

  /** Every place of a fresh struct is in its initial state; a union holds no member. */
  lemma {:induction false} DefaultsHold(fields: seq<Field>, n: nat, j: nat)
    requires ProperFields(fields) && j < n <= |fields|
    ensures var slots := DefaultSlots(fields[..n]);
            fields[j].place in slots
            && (!fields[j].htype.OneOf? ==> slots[fields[j].place] == InitialSlot(fields[j]))
            && (fields[j].htype.OneOf? ==> slots[fields[j].place].Union? && slots[fields[j].place].which == 0)
  {
    assert fields[..n][..n - 1] == fields[..n - 1];
    if j < n - 1 {
      DefaultsHold(fields, n - 1, j);
    }
  }

  /** The field that decides what the decoder's struct holds at the place of its field `j`. */
  lemma ProjectedSlot(dfs: seq<Field>, efs: seq<Field>, m: Message, j: nat)
    requires ProperFields(dfs) && ProperFields(efs) && SubFields(dfs, efs) && TypedMessage(efs, m) && j < |dfs|
    ensures var d := dfs[j];
            var i := Find(efs, d.tag);
            var s, r := m.slots[efs[i].place], ProjectFrom(dfs, efs, 0, m, Defaults(dfs));
            && Present(efs[i], s).Ok? && d.place in r.slots
            && (Present(efs[i], s).value != [] ==> r.slots[d.place] == NewSlot(d, efs[i].ltype, Present(efs[i], s).value))
            && (Present(efs[i], s).value == [] && !d.htype.OneOf? ==> r.slots[d.place] == InitialSlot(d))
            && (Present(efs[i], s).value == [] && d.htype.OneOf? ==> r.slots[d.place].Union? && r.slots[d.place].which != d.tag)
  {
    var d, q := dfs[j], dfs[j].place;
    var i := Find(efs, d.tag);
    var s := m.slots[efs[i].place];
    TypedFieldEncodes(efs[i], s);
    FindIs(dfs, j);
    DefaultsHold(dfs, |dfs|, j);
    assert dfs[..|dfs|] == dfs;
    forall k | 0 <= k < |efs| && k != i && Writes(dfs, efs, m, k, q)
      ensures d.htype.OneOf? && efs[k].htype.OneOf? && efs[k].place == efs[i].place
      ensures efs[k].tag == m.slots[efs[i].place].which
      ensures !Writes(dfs, efs, m, i, q)
    {
      FindIs(efs, k);
      var j' := Find(dfs, efs[k].tag);
      assert j' != j && dfs[j'].place == dfs[j].place;
      assert efs[Find(efs, dfs[j'].tag)] == efs[k];
    }
    if Present(efs[i], s).value != [] {
      assert Writes(dfs, efs, m, i, q);
      ProjectWrites(dfs, efs, 0, m, Defaults(dfs), i, q);
    } else if k :| 0 <= k < |efs| && Writes(dfs, efs, m, k, q) {
      assert forall k' :: 0 <= k' < |efs| && Writes(dfs, efs, m, k', q) ==> efs[k'].tag == efs[k].tag;
      ProjectWrites(dfs, efs, 0, m, Defaults(dfs), k, q);
    } else {
      ProjectKeeps(dfs, efs, 0, m, Defaults(dfs), q);
    }
  }

  // ----- the projection agrees with the encoded struct

  /** A value left out as zero agrees with the initial value it is decoded to. */
  lemma ZeroAgrees(d: Field, et: LType, v: Value)
    requires ProperField(d) && d.htype.Implicit? && SubType(d.ltype, et) && TypedValue(et, v) && IsZero(et, v)
    requires d.ltype.SubMessage? ==> ProperFields(et.fields)
    ensures SameValue(d.ltype, et, v, InitialValue(d.ltype, d.initial))
    decreases d
  {
    match d.ltype
    case SubMessage(fields) => DefaultsAgree(fields, et.fields, v.m);
    case _ =>
  }

  lemma DefaultsAgree(dfs: seq<Field>, efs: seq<Field>, m: Message)
    requires ProperFields(dfs) && ProperFields(efs) && SubFields(dfs, efs) && TypedMessage(efs, m) && AllDefault(efs, m)
    ensures SameKnown(dfs, efs, m, Defaults(dfs))
    decreases dfs
  {
    assert dfs[..|dfs|] == dfs;
    forall j | 0 <= j < |dfs|
      ensures var i := Find(efs, dfs[j].tag);
              dfs[j].place in Defaults(dfs).slots
              && SameSlot(dfs[j], efs[i], m.slots[efs[i].place], Defaults(dfs).slots[dfs[j].place])
    {
      DefaultsHold(dfs, |dfs|, j);
      var i := Find(efs, dfs[j].tag);
      assert IsDefault(efs[i], m.slots[efs[i].place]);
      if dfs[j].htype.Implicit? {
        ZeroAgrees(dfs[j], efs[i].ltype, m.slots[efs[i].place].v);
      }
    }
  }

  lemma ProjectionOfValue(d: Field, et: LType, v: Value)
    requires ProperField(d) && SubType(d.ltype, et) && TypedValue(et, v)
    requires d.ltype.SubMessage? ==> ProperFields(et.fields)
    ensures SameValue(d.ltype, et, v, Project(d.ltype, et, v))
    decreases d, 0
  {
    match d.ltype
    case SubMessage(fields) => ProjectionAgrees(fields, et.fields, v.m);
    case _ =>
  }

  lemma {:induction false} ProjectionOfValues(d: Field, et: LType, vs: seq<Value>)
    requires ProperField(d) && SubType(d.ltype, et) && forall k :: 0 <= k < |vs| ==> TypedValue(et, vs[k])
    requires d.ltype.SubMessage? ==> ProperFields(et.fields)
    ensures forall k :: 0 <= k < |vs| ==> SameValue(d.ltype, et, vs[k], ProjectAll(d.ltype, et, vs)[k])
    decreases d, 1, |vs|
  {
    if vs != [] {
      ProjectionOfValue(d, et, vs[0]);
      ProjectionOfValues(d, et, vs[1..]);
      forall k | 0 <= k < |vs| ensures SameValue(d.ltype, et, vs[k], ProjectAll(d.ltype, et, vs)[k]) {
        assert k > 0 ==> vs[k] == vs[1..][k - 1] && ProjectAll(d.ltype, et, vs)[k] == ProjectAll(d.ltype, et, vs[1..])[k - 1];
      }
    }
  }

  lemma ProjectionOfSlot(d: Field, e: Field, s: Slot, s': Slot)
    requires ProperField(d) && ProperField(e) && SubField(d, e) && TypedSlot(e, s) && Present(e, s).Ok?
    requires var vs := Present(e, s).value;
             && (vs != [] ==> s' == NewSlot(d, e.ltype, vs))
             && (vs == [] && !d.htype.OneOf? ==> s' == InitialSlot(d))
             && (vs == [] && d.htype.OneOf? ==> s'.Union? && s'.which != d.tag)
    ensures SameSlot(d, e, s, s')
    decreases d, 2
  {
    var vs := Present(e, s).value;
    ProjectionOfValues(d, e.ltype, vs);
    if vs != [] {
      assert ProjectAll(d.ltype, e.ltype, vs)[0] == Project(d.ltype, e.ltype, vs[0]);
    } else if d.htype.Implicit? {
      ZeroAgrees(d, e.ltype, s.v);
    }
  }

  lemma ProjectionAgrees(dfs: seq<Field>, efs: seq<Field>, m: Message)
    requires ProperFields(dfs) && ProperFields(efs) && SubFields(dfs, efs) && TypedMessage(efs, m)
    ensures SameKnown(dfs, efs, m, ProjectFrom(dfs, efs, 0, m, Defaults(dfs)))
    decreases dfs
  {
    var r := ProjectFrom(dfs, efs, 0, m, Defaults(dfs));
    forall j | 0 <= j < |dfs|
      ensures var i := Find(efs, dfs[j].tag);
              dfs[j].place in r.slots && SameSlot(dfs[j], efs[i], m.slots[efs[i].place], r.slots[dfs[j].place])
    {
      ProjectedSlot(dfs, efs, m, j);
      var i := Find(efs, dfs[j].tag);
      ProjectionOfSlot(dfs[j], efs[i], m.slots[efs[i].place], r.slots[dfs[j].place]);
    }
  }

  // ----- the results

  /** A message encoded with a larger descriptor and decoded with one that knows some of its fields,
      at any depth: decoding succeeds exactly when every string that is due for the decoder leaves room
      for its NUL, and then agrees with the message on every field the decoder knows. */
  lemma ForwardCompatible(dfs: seq<Field>, efs: seq<Field>, m: Message)
    requires ProperFields(dfs) && ProperFields(efs) && SubFields(dfs, efs) && TypedMessage(efs, m)
    requires EncodeMessage(efs, m).Ok? ==> |EncodeMessage(efs, m).value| < TWO_32
    ensures EncodeMessage(efs, m).Ok?
    ensures var decoded := Decode(dfs, EncodeMessage(efs, m).value);
            && (decoded.Ok? <==> FitsFrom(dfs, efs, 0, m))
            && (decoded.Ok? ==> SameKnown(dfs, efs, m, decoded.value))
  {
    TypedMessageEncodes(efs, m);
    MessageRoundTrip(dfs, efs, m);
    ProjectionAgrees(dfs, efs, m);
  }

  lemma SubTypeReflexive(f: Field)
    requires ProperField(f)
    ensures SubType(f.ltype, f.ltype)
    decreases f
  {
    match f.ltype
    case SubMessage(fields) => SubFieldsReflexive(fields);
    case _ =>
  }

  lemma SubFieldsReflexive(fields: seq<Field>)
    requires ProperFields(fields)
    ensures SubFields(fields, fields)
    decreases fields
  {
    forall k | 0 <= k < |fields|
      ensures Find(fields, fields[k].tag) == k && SubField(fields[k], fields[k])
    {
      FindIs(fields, k);
      SubTypeReflexive(fields[k]);
    }
  }

  /** The round trip: decoding what was encoded under the same descriptor. */
  lemma WholeMessageRoundTrip(fields: seq<Field>, m: Message)
    requires ProperFields(fields) && TypedMessage(fields, m)
    requires EncodeMessage(fields, m).Ok? ==> |EncodeMessage(fields, m).value| < TWO_32
    ensures EncodeMessage(fields, m).Ok?
    ensures var decoded := Decode(fields, EncodeMessage(fields, m).value);
            && (decoded.Ok? <==> FitsFrom(fields, fields, 0, m))
            && (decoded.Ok? ==> SameKnown(fields, fields, m, decoded.value))
  {
    SubFieldsReflexive(fields);
    ForwardCompatible(fields, fields, m);
  }
}
