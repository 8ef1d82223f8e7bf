/** What the bitmap of required fields guarantees about an accepted message. */
module PbRequired {
  import opened History
  import opened PbWire
  import opened PbMessage
  import PbDecode

  /** The keys that the loop of pb_decode_noinit reads, in order. */
  function KeysRead(fields: seq<Field>, bs: Bytes, p: Progress): seq<nat>
    decreases |bs|
  {
    if bs == [] then []
    else match DecodeVarint32(bs)
      case Got32(key, rest) =>
        if key == 0 then []
        else
          var i := Find(fields, key / 8);
          if i == |fields| then
            (match PassOver(fields, key, rest)
             case Got(_, rest') => [key] + KeysRead(fields, rest', p)
             case Bad => [key])
          else
            (match DecodeKnown(fields, i, key % 8, rest, p)
             case Got(p', rest') => [key] + KeysRead(fields, rest', p')
             case Bad => [key])
      case _ => []
  }

  predicate HasKeyFor(keys: seq<nat>, tag: nat) {
    exists k :: 0 <= k < |keys| && keys[k] / 8 == tag
  }

  lemma SeenGrowsByOne(fields: seq<Field>, i: nat, wireType: nat, bs: Bytes, p: Progress, j: nat)
    requires i < |fields| && j < |fields| && fields[j].htype.Required? && i != j
    requires DecodeKnown(fields, i, wireType, bs, p).Got?
    ensures RequiredBefore(fields, j) in DecodeKnown(fields, i, wireType, bs, p).value.seen ==> RequiredBefore(fields, j) in p.seen
  {
    hide DecodeField;
    if fields[i].htype.Required? {
      if i < j {
        PbDecode.RequiredMonotone(fields, i, j);
      } else {
        PbDecode.RequiredMonotone(fields, j, i);
      }
    }
  }

  lemma {:induction false} LoopReadsRequired(fields: seq<Field>, bs: Bytes, p: Progress, j: nat)
    requires DecodeLoop(fields, bs, p).Ok?
    requires j < |fields| && fields[j].htype.Required? && RequiredBefore(fields, j) < MAX_REQUIRED
    requires RequiredBefore(fields, j) !in p.seen
    ensures HasKeyFor(KeysRead(fields, bs, p), fields[j].tag)
    decreases |bs|
  {
    hide DecodeKnown, PassOver, DecodeVarint32;
    PbDecode.RequiredMonotone(fields, j, |fields|);
    match DecodeVarint32(bs) {
      case Got32(key, rest) =>
        var i := Find(fields, key / 8);
        if bs != [] && key != 0 {
          if i == |fields| {
            var rest' := PassOver(fields, key, rest).rest;
            LoopReadsRequired(fields, rest', p, j);
            KeyAhead(key, KeysRead(fields, rest', p), fields[j].tag);
          } else if i == j {
            assert KeysRead(fields, bs, p)[0] == key;
          } else {
            var next := DecodeKnown(fields, i, key % 8, rest, p);
            SeenGrowsByOne(fields, i, key % 8, rest, p, j);
            LoopReadsRequired(fields, next.rest, next.value, j);
            KeyAhead(key, KeysRead(fields, next.rest, next.value), fields[j].tag);
          }
        }
      case _ =>
    }
  }

  lemma KeyAhead(key: nat, keys: seq<nat>, tag: nat)
    requires HasKeyFor(keys, tag)
    ensures HasKeyFor([key] + keys, tag)
  {
    var k :| 0 <= k < |keys| && keys[k] / 8 == tag;
    assert ([key] + keys)[k + 1] == keys[k];
  }

  /** A message is accepted only if a key for each of the first 64 required fields has been read. */
  lemma RequiredFieldsWereRead(fields: seq<Field>, bs: Bytes, m: Message, j: nat)
    requires DecodeNoInit(fields, bs, m).Ok?
    requires j < |fields| && fields[j].htype.Required? && RequiredBefore(fields, j) < MAX_REQUIRED
    ensures HasKeyFor(KeysRead(fields, bs, Progress(m, {}, 0, 0)), fields[j].tag)
  {
    hide DecodeLoop;
    LoopReadsRequired(fields, bs, Progress(m, {}, 0, 0), j);
  }
}
