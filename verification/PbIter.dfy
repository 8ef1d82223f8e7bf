/** pb_common.c: the wrap-around iterator over a field descriptor array that ends in a zero tag. */
module PbIter {

  datatype HType = Required | Optional | Repeated | OneOf
  datatype AType = Static | Pointer | Callback

  /** A pb_field_t.  Offsets are relative to the previous field; in a union the members after the
      first carry the largest size value instead. */
  datatype FieldInfo = FieldInfo(tag: nat, extension: bool, htype: HType, atype: AType, dataOffset: nat,
                                 sizeOffset: int, dataSize: nat, arraySize: nat)

  const SIZE_MAX: nat := 0xFFFF_FFFF
  const POINTER_SIZE: nat := 8

  ghost predicate Terminated(fields: seq<FieldInfo>) {
    && fields != [] && fields[|fields| - 1].tag == 0
    && forall i :: 0 <= i < |fields| - 1 ==> fields[i].tag != 0
  }

  predicate InsideUnion(prev: FieldInfo, next: FieldInfo) {
    prev.htype.OneOf? && next.htype.OneOf? && next.dataOffset == SIZE_MAX
  }

  function SizeInStruct(f: FieldInfo): nat {
    if f.atype.Static? && f.htype.Repeated? then f.dataSize * f.arraySize
    else if f.atype.Pointer? then POINTER_SIZE
    else f.dataSize
  }

  /** Where the data of field `i` lies, its has_ flag or count, and how many required fields precede it. */
  function DataAt(fields: seq<FieldInfo>, base: int, i: nat): int
    requires i < |fields|
  {
    if i == 0 then base + fields[0].dataOffset
    else if InsideUnion(fields[i - 1], fields[i]) then DataAt(fields, base, i - 1)
    else DataAt(fields, base, i - 1) + SizeInStruct(fields[i - 1]) + fields[i].dataOffset
  }

  function SizeAt(fields: seq<FieldInfo>, base: int, i: nat): int
    requires i < |fields|
  {
    if i > 0 && InsideUnion(fields[i - 1], fields[i]) then SizeAt(fields, base, i - 1)
    else DataAt(fields, base, i) + fields[i].sizeOffset
  }

  function RequiredAt(fields: seq<FieldInfo>, i: nat): nat
    requires i <= |fields|
  {
    if i == 0 then 0 else RequiredAt(fields, i - 1) + if fields[i - 1].htype.Required? then 1 else 0
  }

  class FieldIter {
    const start: seq<FieldInfo>
    const destStruct: int
    var pos: nat
    var requiredFieldIndex: nat
    var pData: int
    var pSize: int

    /** The position is on a field, or on the terminator of an empty message, and everything else
        follows from it, however often the iterator has wrapped around. */
    ghost predicate Valid()
      reads this
    {
      && Terminated(start)
      && (pos < |start| - 1 || pos == 0)
      && pData == DataAt(start, destStruct, pos)
      && pSize == SizeAt(start, destStruct, pos)
      && requiredFieldIndex == RequiredAt(start, pos)
    }

    constructor (fields: seq<FieldInfo>, destStruct: int)
      requires Terminated(fields)
      ensures Valid() && pos == 0 && start == fields && this.destStruct == destStruct
    {
      start, this.destStruct := fields, destStruct;
      pos, requiredFieldIndex := 0, 0;
      pData := destStruct + fields[0].dataOffset;
      pSize := destStruct + fields[0].dataOffset + fields[0].sizeOffset;
    }

    /** pb_field_iter_begin. */
    method Begin() returns (ok: bool)
      requires Terminated(start)
      modifies this
      ensures Valid() && pos == 0 && (ok <==> |start| > 1)
    {
      pos, requiredFieldIndex := 0, 0;
      pData := destStruct + start[0].dataOffset;
      pSize := pData + start[0].sizeOffset;
      ok := start[pos].tag != 0;
    }

    /** pb_field_iter_next: false at the end, which is also where it starts over. */
    method Next() returns (ok: bool)
      requires Valid()
      modifies this
      ensures Valid()
      ensures ok <==> old(pos) + 1 < |start| - 1
      ensures pos == if ok then old(pos) + 1 else 0
    {
      var prev := start[pos];
      if prev.tag == 0 {
        return false;
      }
      pos := pos + 1;
      if start[pos].tag == 0 {
        var _ := Begin();
        return false;
      }
      if InsideUnion(prev, start[pos]) {
        return true;
      }
      if prev.htype.Required? {
        requiredFieldIndex := requiredFieldIndex + 1;
      }
      pData := pData + SizeInStruct(prev) + start[pos].dataOffset;
      pSize := pData + start[pos].sizeOffset;
      ok := true;
    }

    ghost predicate Matches(i: nat, tag: nat)
      requires i < |start|
    {
      start[i].tag == tag && !start[i].extension
    }

    /** pb_field_iter_find.  From wherever it starts it looks at every field once.  In an empty
        message the only thing to look at is the terminator, which passes for a field with tag zero. */
    method Find(tag: nat) returns (ok: bool)
      requires Valid()
      modifies this
      ensures Valid()
      ensures ok ==> Matches(pos, tag)
      ensures |start| > 1 ==> (ok <==> exists i :: 0 <= i < |start| - 1 && Matches(i, tag))
      ensures |start| == 1 ==> (ok <==> tag == 0 && !start[0].extension)
      ensures !ok ==> pos == old(pos)
    {
      var first := pos;
      ghost var seen: nat := 0;    // how many fields have been looked at
      ghost var n := if |start| > 1 then |start| - 1 else 1;
      while true
        invariant Valid() && first < n && seen < n
        invariant pos == if first + seen < n then first + seen else first + seen - n
        invariant first == old(pos)
        invariant forall i :: 0 <= i < n && (if first + seen < n then first <= i < pos else first <= i || i < pos) ==>
                                !Matches(i, tag)
        decreases n - seen
      {
        if start[pos].tag == tag && !start[pos].extension {
          assert Matches(pos, tag);
          return true;
        }
        var _ := Next();
        if pos == first {
          return false;
        }
        seen := seen + 1;
      }
    }

    /** The end of pb_decode_noinit: from any position the number of required fields is found by
        running to the end of the array. */
    method CountRequired() returns (count: nat)
      requires Valid()
      modifies this
      ensures Valid() && count == RequiredAt(start, |start| - 1)
    {
      count := requiredFieldIndex;
      var last := start[pos];
      while true
        invariant Valid() && count == RequiredAt(start, pos) && last == start[pos]
        decreases |start| - pos
      {
        var more := Next();
        if !more {
          break;
        }
        count := requiredFieldIndex;
        last := start[pos];
      }
      if last.htype.Required? && start[pos].tag != 0 {
        count := count + 1;
      }
    }
  }
}
