/** The skip list behind the memtable (db/skiplist.h): twelve linked lists over entries ordered
    by internal key, written by one thread and walked by readers that take no lock.

    A link is a place in memory read and written in one atomic step.  Level l is a map from a
    node to the node its l-th link holds; the map may also hold links of a node that is being
    prepared and cannot be reached yet.  `linked[l]` is the set of entries that can be reached
    on level l; Ordered says so.
 */
module SkipLists {
  import opened History

  const MAX_HEIGHT: nat := 12

  datatype Ptr = Head | Node(entry: Entry) | Null

  type Level = map<Ptr, Ptr>

  // ----- The order of one level -----

  /** Entry `e` belongs to the right of `p`. */
  predicate Follows(e: Entry, p: Ptr) {
    p.Head? || (p.Node? && Before(p.entry, e))
  }

  predicate Holds(s: set<Entry>, p: Ptr) {
    p.Head? || (p.Node? && p.entry in s)
  }

  /** `n` is the first entry of `s` to the right of `p`, or null when there is none. */
  ghost predicate IsNext(s: set<Entry>, p: Ptr, n: Ptr) {
    match n
    case Head => false
    case Null => forall e :: e in s ==> !Follows(e, p)
    case Node(f) => f in s && Follows(f, p) && forall e :: e in s && Follows(e, p) ==> e == f || Before(f, e)
  }

  ghost predicate LevelOrdered(level: Level, s: set<Entry>) {
    forall p :: Holds(s, p) ==> p in level && IsNext(s, p, level[p])
  }

  predicate Distinct(s: set<Entry>) {
    forall a, b :: a in s && b in s && a != b ==> Before(a, b) || Before(b, a)
  }

  /** The state of the list after every single store. */
  ghost predicate Ordered(next: seq<Level>, linked: seq<set<Entry>>, maxHeight: nat) {
    && |next| == |linked| == MAX_HEIGHT
    && 1 <= maxHeight <= MAX_HEIGHT
    && Distinct(linked[0])
    && (forall l :: 0 <= l < MAX_HEIGHT ==> LevelOrdered(next[l], linked[l]))
    && (forall l :: 0 < l < MAX_HEIGHT ==> linked[l] <= linked[l - 1])
    && (forall l :: maxHeight <= l < MAX_HEIGHT ==> linked[l] == {})
  }

  ghost function Rest(s: set<Entry>, p: Ptr): set<Entry> {
    set e | e in s && Follows(e, p)
  }

  lemma NextShrinksRest(s: set<Entry>, p: Ptr, n: Ptr)
    requires n.Node? && n.entry in s && Follows(n.entry, p)
    ensures Rest(s, n) < Rest(s, p)
  {
    assert n.entry in Rest(s, p) && n.entry !in Rest(s, n);
  }

  lemma {:induction false} Nested(next: seq<Level>, linked: seq<set<Entry>>, maxHeight: nat, l: nat, k: nat)
    requires Ordered(next, linked, maxHeight) && k <= l < MAX_HEIGHT
    ensures linked[l] <= linked[k]
    decreases l
  {
    if k < l {
      Nested(next, linked, maxHeight, l - 1, k);
    }
  }

  /** The entries met by following the links of one level from `p` on. */
  ghost function Walk(level: Level, s: set<Entry>, p: Ptr): seq<Entry>
    requires LevelOrdered(level, s) && Holds(s, p)
    decreases Rest(s, p)
  {
    var n := level[p];
    assert IsNext(s, p, n);
    if n.Null? then
      []
    else
      NextShrinksRest(s, p, n);
      [n.entry] + Walk(level, s, n)
  }

  lemma {:induction false} WalkIsTheSortedSet(level: Level, s: set<Entry>, p: Ptr)
    requires LevelOrdered(level, s) && Holds(s, p)
    ensures StrictlySorted(Walk(level, s, p))
    ensures forall e :: e in Walk(level, s, p) <==> e in s && Follows(e, p)
    decreases Rest(s, p)
  {
    var n := level[p];
    assert IsNext(s, p, n);
    if n.Node? {
      NextShrinksRest(s, p, n);
      WalkIsTheSortedSet(level, s, n);
      var w := Walk(level, s, n);
      assert forall i :: 0 <= i < |w| ==> w[i] in w;
    }
  }

  /** Level 0 is the strictly sorted list of all entries; each level is a sorted part of the level below. */
  lemma LevelsAreSortedLists(next: seq<Level>, linked: seq<set<Entry>>, maxHeight: nat, l: nat)
    requires Ordered(next, linked, maxHeight) && l < MAX_HEIGHT
    ensures StrictlySorted(Walk(next[l], linked[l], Head))
    ensures forall e :: e in Walk(next[l], linked[l], Head) <==> e in linked[l]
    ensures l > 0 ==> forall e :: e in Walk(next[l], linked[l], Head) ==> e in Walk(next[l - 1], linked[l - 1], Head)
  {
    WalkIsTheSortedSet(next[l], linked[l], Head);
    if l > 0 {
      WalkIsTheSortedSet(next[l - 1], linked[l - 1], Head);
    }
  }

  // ----- The stores of Insert -----

  ghost predicate Fresh(s: set<Entry>, key: Entry) {
    forall e :: e in s ==> Before(e, key) || Before(key, e)
  }

  /** `p` is the last node of `s`, or the head, to the left of `key`. */
  ghost predicate IsPrevious(s: set<Entry>, p: Ptr, key: Entry) {
    Holds(s, p) && Follows(key, p) && forall e :: e in s && Before(e, key) ==> !Follows(e, p)
  }

  /** x->next_[i] = prev[i]->next_[i], with x not reachable on level i. */
  function Prepared(level: Level, p: Ptr, key: Entry): Level
    requires p in level
  {
    level[Node(key) := level[p]]
  }

  /** prev[i]->next_[i] = x. */
  function Published(level: Level, p: Ptr, key: Entry): Level {
    level[p := Node(key)]
  }

  lemma PrepareKeepsOrder(level: Level, s: set<Entry>, p: Ptr, key: Entry)
    requires LevelOrdered(level, s) && Fresh(s, key) && Holds(s, p)
    ensures LevelOrdered(Prepared(level, p, key), s)
  {
    assert key !in s;
    forall q | Holds(s, q) ensures q in Prepared(level, p, key) && IsNext(s, q, Prepared(level, p, key)[q]) {
      assert IsNext(s, q, level[q]);
    }
  }

  lemma PublishKeepsOrder(level: Level, s: set<Entry>, p: Ptr, key: Entry)
    requires LevelOrdered(level, s) && Fresh(s, key) && IsPrevious(s, p, key) && Distinct(s)
    requires Node(key) in level && level[Node(key)] == level[p]
    ensures LevelOrdered(Published(level, p, key), s + {key})
  {
    var t := s + {key};
    var after := Published(level, p, key);
    assert IsNext(s, p, level[p]);
    forall q | Holds(t, q) ensures q in after && IsNext(t, q, after[q]) {
      if q == p {
        forall e | e in t && Follows(e, p) ensures e == key || Before(key, e) {
        }
        assert IsNext(t, p, Node(key));
      } else if q == Node(key) {
        assert after[q] == level[p];
        forall e | e in t && Follows(e, q) ensures e in s && Follows(e, p) {
        }
        if level[p].Node? {
          assert Follows(level[p].entry, q);
        }
      } else {
        assert IsNext(s, q, level[q]);
        assert Follows(key, q) ==> level[q].Node? && Before(level[q].entry, key) by {
          if Follows(key, q) {
            if q.Head? {
              assert p.Node? && Follows(p.entry, q);
            } else {
              assert !Follows(q.entry, p);
              assert p.Node? && Follows(p.entry, q);
            }
          }
        }
      }
    }
  }

  /** One level gets the new entry; all other levels are as they were. */
  lemma PublishKeepsAllLevels(next: seq<Level>, linked: seq<set<Entry>>, maxHeight: nat, i: nat, p: Ptr, key: Entry)
    requires Ordered(next, linked, maxHeight) && i < maxHeight
    requires Fresh(linked[i], key) && (i > 0 ==> key in linked[i - 1])
    requires IsPrevious(linked[i], p, key)
    requires Node(key) in next[i] && next[i][Node(key)] == next[i][p]
    ensures Ordered(next[i := Published(next[i], p, key)], linked[i := linked[i] + {key}], maxHeight)
  {
    Nested(next, linked, maxHeight, i, 0);
    PublishKeepsOrder(next[i], linked[i], p, key);
  }

  lemma PrepareKeepsAllLevels(next: seq<Level>, linked: seq<set<Entry>>, maxHeight: nat, i: nat, p: Ptr, key: Entry)
    requires Ordered(next, linked, maxHeight) && i < maxHeight
    requires Fresh(linked[i], key) && IsPrevious(linked[i], p, key)
    ensures Ordered(next[i := Prepared(next[i], p, key)], linked, maxHeight)
  {
    PrepareKeepsOrder(next[i], linked[i], p, key);
  }

  // ----- Searches of a list at rest -----

  /** `n` is the first entry at or after `key`. */
  ghost predicate IsCeiling(s: set<Entry>, key: Entry, n: Ptr) {
    match n
    case Head => false
    case Null => forall e :: e in s ==> Before(e, key)
    case Node(f) => f in s && !Before(f, key) && forall e :: e in s ==> Before(e, key) || e == f || Before(f, e)
  }

  /** `n` is the last entry, or the head when the list is empty. */
  ghost predicate IsLast(s: set<Entry>, n: Ptr) {
    Holds(s, n) && forall e :: e in s ==> !Follows(e, n)
  }

  /** What `prev` holds after FindGreaterOrEqual(key, prev). */
  ghost predicate PreviousOnEveryLevel(prev: seq<Ptr>, linked: seq<set<Entry>>, key: Entry, from: nat, maxHeight: nat) {
    |prev| == |linked| == MAX_HEIGHT && forall l :: from <= l < maxHeight <= MAX_HEIGHT ==> IsPrevious(linked[l], prev[l], key)
  }

  class SkipList {
    var next: seq<Level>
    var maxHeight: nat
    ghost var linked: seq<set<Entry>>

    ghost predicate Valid()
      reads this
    {
      Ordered(next, linked, maxHeight)
    }

    ghost function Contents(): set<Entry>
      reads this
      requires Valid()
    {
      linked[0]
    }

    constructor ()
      ensures Valid() && Contents() == {}
    {
      next := seq(MAX_HEIGHT, l => map[]);
      maxHeight := 1;
      linked := seq(MAX_HEIGHT, l => {});
      new;
      for i := 0 to MAX_HEIGHT
        invariant |next| == |linked| == MAX_HEIGHT && maxHeight == 1
        invariant forall l :: 0 <= l < MAX_HEIGHT ==> linked[l] == {}
        invariant forall l :: 0 <= l < i ==> next[l] == map[Head := Null]
      {
        next := next[i := map[Head := Null]];
      }
    }

    method FindGreaterOrEqual(key: Entry, prev: array?<Ptr>) returns (n: Ptr)
      requires Valid()
      requires prev != null ==> prev.Length == MAX_HEIGHT
      modifies prev
      ensures IsCeiling(Contents(), key, n)
      ensures prev != null ==> PreviousOnEveryLevel(prev[..], linked, key, 0, maxHeight)
    {
      var x: Ptr := Head;
      var level := maxHeight - 1;
      while true
        invariant 0 <= level < maxHeight
        invariant Holds(linked[level], x) && Follows(key, x)
        invariant prev != null ==> PreviousOnEveryLevel(prev[..], linked, key, level + 1, maxHeight)
        decreases level, Rest(linked[level], x)
      {
        assert LevelOrdered(next[level], linked[level]);
        n := next[level][x];
        assert IsNext(linked[level], x, n);
        if n.Node? && Before(n.entry, key) {
          NextShrinksRest(linked[level], x, n);
          x := n;
        } else {
          assert IsPrevious(linked[level], x, key);
          if prev != null {
            prev[level] := x;
          }
          if level == 0 {
            return;
          }
          assert linked[level] <= linked[level - 1];
          level := level - 1;
        }
      }
    }

    method FindLessThan(key: Entry) returns (x: Ptr)
      requires Valid()
      ensures IsPrevious(Contents(), x, key)
    {
      x := Head;
      var level := maxHeight - 1;
      while true
        invariant 0 <= level < maxHeight
        invariant Holds(linked[level], x) && Follows(key, x)
        decreases level, Rest(linked[level], x)
      {
        assert LevelOrdered(next[level], linked[level]);
        var n := next[level][x];
        assert IsNext(linked[level], x, n);
        if n.Null? || !Before(n.entry, key) {
          if level == 0 {
            return;
          }
          assert linked[level] <= linked[level - 1];
          level := level - 1;
        } else {
          NextShrinksRest(linked[level], x, n);
          x := n;
        }
      }
    }

    method FindLast() returns (x: Ptr)
      requires Valid()
      ensures IsLast(Contents(), x)
    {
      x := Head;
      var level := maxHeight - 1;
      while true
        invariant 0 <= level < maxHeight
        invariant Holds(linked[level], x)
        decreases level, Rest(linked[level], x)
      {
        assert LevelOrdered(next[level], linked[level]);
        var n := next[level][x];
        assert IsNext(linked[level], x, n);
        if n.Null? {
          if level == 0 {
            return;
          }
          assert linked[level] <= linked[level - 1];
          level := level - 1;
        } else {
          NextShrinksRest(linked[level], x, n);
          x := n;
        }
      }
    }

    /** Each further level is drawn with one chance in four. */
    method RandomHeight() returns (height: nat)
      ensures 1 <= height <= MAX_HEIGHT
    {
      height := 1;
      var again: bool := *;
      while height < MAX_HEIGHT && again
        invariant 1 <= height <= MAX_HEIGHT
      {
        height := height + 1;
        again := *;
      }
    }

    /** The levels are linked from the bottom up, and the list is well ordered after every store. */
    method Insert(key: Entry)
      requires Valid() && Fresh(Contents(), key)
      modifies this
      ensures Valid() && Contents() == old(Contents()) + {key}
    {
      var prev := new Ptr[MAX_HEIGHT](l => Head);
      var x := FindGreaterOrEqual(key, prev);
      var height := RandomHeight();
      if height > maxHeight {
        for i := maxHeight to height
          modifies prev
          invariant prev.Length == MAX_HEIGHT
          invariant PreviousOnEveryLevel(prev[..], linked, key, 0, i)
        {
          assert IsPrevious(linked[i], Head, key);
          prev[i] := Head;
        }
        maxHeight := height;
        assert Ordered(next, linked, maxHeight);
      }
      forall l | 0 <= l < MAX_HEIGHT ensures Fresh(linked[l], key) {
        Nested(next, linked, maxHeight, l, 0);
      }
      for i := 0 to height
        invariant height <= maxHeight && prev.Length == MAX_HEIGHT
        invariant Ordered(next, linked, maxHeight)
        invariant linked[0] == if i == 0 then old(Contents()) else old(Contents()) + {key}
        invariant i > 0 ==> key in linked[i - 1]
        invariant i == 0 ==> Fresh(linked[0], key)
        invariant forall l :: i <= l < MAX_HEIGHT ==> Fresh(linked[l], key)
        invariant forall l :: i <= l < height ==> IsPrevious(linked[l], prev[l], key)
      {
        PrepareKeepsAllLevels(next, linked, maxHeight, i, prev[i], key);
        next := next[i := Prepared(next[i], prev[i], key)];
        assert Ordered(next, linked, maxHeight);
        PublishKeepsAllLevels(next, linked, maxHeight, i, prev[i], key);
        next := next[i := Published(next[i], prev[i], key)];
        linked := linked[i := linked[i] + {key}];
        assert Ordered(next, linked, maxHeight);
      }
    }

    method Contains(key: Entry) returns (found: bool)
      requires Valid()
      ensures found <==> exists e :: e in Contents() && !Before(e, key) && !Before(key, e)
    {
      var x := FindGreaterOrEqual(key, null);
      found := x.Node? && !Before(key, x.entry);
    }
  }

  /** SkipList::Iterator; a null node means the iterator is not valid. */
  class SkipListIterator {
    const list: SkipList
    var node: Ptr

    constructor (list: SkipList)
      ensures this.list == list && node == Null
    {
      this.list := list;
      node := Null;
    }

    method Next()
      requires list.Valid() && node.Node? && node.entry in list.Contents()
      modifies this
      ensures IsNext(list.Contents(), old(node), node)
    {
      assert LevelOrdered(list.next[0], list.linked[0]);
      node := list.next[0][node];
    }

    /** There are no links to the left: search again, and turn the head into "not valid". */
    method Prev()
      requires list.Valid() && node.Node?
      modifies this
      ensures node.Node? ==> IsPrevious(list.Contents(), node, old(node).entry)
      ensures node.Null? ==> forall e :: e in list.Contents() ==> !Before(e, old(node).entry)
      ensures !node.Head?
    {
      node := list.FindLessThan(node.entry);
      if node == Head {
        node := Null;
      }
    }

    method Seek(target: Entry)
      requires list.Valid()
      modifies this
      ensures IsCeiling(list.Contents(), target, node)
    {
      node := list.FindGreaterOrEqual(target, null);
    }

    method SeekToFirst()
      requires list.Valid()
      modifies this
      ensures IsNext(list.Contents(), Head, node)
    {
      assert LevelOrdered(list.next[0], list.linked[0]);
      node := list.next[0][Head];
    }

    method SeekToLast()
      requires list.Valid()
      modifies this
      ensures node.Node? ==> IsLast(list.Contents(), node)
      ensures node.Null? <==> list.Contents() == {}
      ensures !node.Head?
    {
      node := list.FindLast();
      if node == Head {
        assert list.Contents() == {} by {
          assert forall e :: e in list.Contents() ==> Follows(e, Head);
        }
        node := Null;
      }
    }
  }

  // ----- Readers that walk the list while entries are being inserted -----

  /** The three searches differ only in which nodes they step onto. */
  datatype Goal = AtOrAfter(target: Entry) | LessThan(target: Entry) | Last

  predicate StepsOnto(goal: Goal, n: Ptr) {
    n.Node? && (goal.Last? || Before(n.entry, goal.target))
  }

  /** A reader's local variables; Done keeps x and the link it loaded last. */
  datatype Reader = Walking(x: Ptr, level: nat) | Done(x: Ptr, n: Ptr)

  datatype Writer = Idle | Linking(key: Entry, height: nat, prev: seq<Ptr>, i: nat, prepared: bool)

  datatype System = System(next: seq<Level>, linked: seq<set<Entry>>, maxHeight: nat, writer: Writer, reader: Reader)

  /** One load by the reader. */
  ghost predicate ReaderStep(goal: Goal, s: System, t: System) {
    && t == s.(reader := t.reader)
    && s.reader.Walking?
    && s.reader.level < |s.next|
    && s.reader.x in s.next[s.reader.level]
    && var n := s.next[s.reader.level][s.reader.x];
    t.reader ==
      if StepsOnto(goal, n) then Walking(n, s.reader.level)
      else if s.reader.level == 0 then Done(s.reader.x, n)
      else Walking(s.reader.x, s.reader.level - 1)
  }

  /** The writer has searched the list and stores the new height. */
  ghost predicate BeginInsert(s: System, t: System) {
    && s.writer.Idle? && t.writer.Linking?
    && t == s.(writer := t.writer, maxHeight := if t.writer.height > s.maxHeight then t.writer.height else s.maxHeight)
    && |s.linked| == MAX_HEIGHT
    && Fresh(s.linked[0], t.writer.key)
    && 1 <= t.writer.height <= MAX_HEIGHT
    && t.writer.i == 0 && !t.writer.prepared
    && PreviousOnEveryLevel(t.writer.prev, s.linked, t.writer.key, 0, t.maxHeight)
  }

  ghost predicate PrepareStep(s: System, t: System) {
    && s.writer.Linking? && !s.writer.prepared
    && var w := s.writer;
    && w.i < |s.next| && w.i < |w.prev| && w.prev[w.i] in s.next[w.i]
    && t == s.(writer := w.(prepared := true), next := s.next[w.i := Prepared(s.next[w.i], w.prev[w.i], w.key)])
  }

  ghost predicate PublishStep(s: System, t: System) {
    && s.writer.Linking? && s.writer.prepared
    && var w := s.writer;
    && w.i < |s.next| && w.i < |w.prev| && w.i < |s.linked|
    && t == s.(
              writer := if w.i + 1 == w.height then Idle else w.(prepared := false, i := w.i + 1),
              next := s.next[w.i := Published(s.next[w.i], w.prev[w.i], w.key)],
              linked := s.linked[w.i := s.linked[w.i] + {w.key}])
  }

  ghost predicate Step(goal: Goal, s: System, t: System) {
    ReaderStep(goal, s, t) || BeginInsert(s, t) || PrepareStep(s, t) || PublishStep(s, t)
  }

  ghost predicate Run(goal: Goal, run: seq<System>) {
    && |run| > 0
    && SystemOk(run[0])
    && forall k :: 0 <= k < |run| - 1 ==> Step(goal, run[k], run[k + 1])
  }

  ghost predicate WriterOk(s: System)
    requires |s.next| == |s.linked| == MAX_HEIGHT
  {
    s.writer.Linking? ==>
      var w := s.writer;
      && w.i < w.height <= s.maxHeight <= MAX_HEIGHT && |w.prev| == MAX_HEIGHT
      && (w.i > 0 ==> w.key in s.linked[w.i - 1])
      && (forall l :: w.i <= l < MAX_HEIGHT ==> Fresh(s.linked[l], w.key))
      && (forall l :: w.i <= l < w.height ==> IsPrevious(s.linked[l], w.prev[l], w.key))
      && (w.prepared ==> Node(w.key) in s.next[w.i] && w.prev[w.i] in s.next[w.i] && s.next[w.i][Node(w.key)] == s.next[w.i][w.prev[w.i]])
  }

  ghost predicate SystemOk(s: System) {
    Ordered(s.next, s.linked, s.maxHeight) && WriterOk(s)
  }

  /** The reader stands on a reachable node that is not past its goal. */
  ghost predicate ReaderOk(goal: Goal, s: System)
    requires |s.linked| == MAX_HEIGHT
  {
    s.reader.Walking? ==>
      && s.reader.level < MAX_HEIGHT
      && Holds(s.linked[s.reader.level], s.reader.x)
      && (s.reader.x.Head? || StepsOnto(goal, s.reader.x))
  }

  lemma BeginInsertKeepsOrder(s: System, t: System)
    requires SystemOk(s) && BeginInsert(s, t)
    ensures SystemOk(t)
  {
    forall l | 0 <= l < MAX_HEIGHT ensures Fresh(t.linked[l], t.writer.key) {
      Nested(s.next, s.linked, s.maxHeight, l, 0);
    }
  }

  lemma PrepareStepKeepsOrder(s: System, t: System)
    requires SystemOk(s) && PrepareStep(s, t)
    ensures SystemOk(t)
  {
    var w := s.writer;
    PrepareKeepsAllLevels(s.next, s.linked, s.maxHeight, w.i, w.prev[w.i], w.key);
    assert w.prev[w.i] != Node(w.key);
  }

  lemma PublishStepKeepsOrder(s: System, t: System)
    requires SystemOk(s) && PublishStep(s, t)
    ensures SystemOk(t)
  {
    var w := s.writer;
    PublishKeepsAllLevels(s.next, s.linked, s.maxHeight, w.i, w.prev[w.i], w.key);
  }

  /** After every single store the list is in order, and nothing that was reachable stops being so. */
  lemma StepKeepsOrder(goal: Goal, s: System, t: System)
    requires SystemOk(s) && Step(goal, s, t)
    ensures SystemOk(t) && |s.linked| == |t.linked| == MAX_HEIGHT
    ensures forall l :: 0 <= l < MAX_HEIGHT ==> s.linked[l] <= t.linked[l]
  {
    if BeginInsert(s, t) {
      BeginInsertKeepsOrder(s, t);
    } else if PrepareStep(s, t) {
      PrepareStepKeepsOrder(s, t);
    } else if PublishStep(s, t) {
      PublishStepKeepsOrder(s, t);
    }
  }

  lemma StepKeepsReader(goal: Goal, s: System, t: System)
    requires SystemOk(s) && ReaderOk(goal, s) && Step(goal, s, t)
    ensures |t.linked| == MAX_HEIGHT && ReaderOk(goal, t)
    ensures !s.reader.Done? && t.reader.Done? ==> Answers(goal, t.linked[0], t.reader.x, t.reader.n)
    ensures s.reader.Done? ==> t.reader == s.reader
  {
    StepKeepsOrder(goal, s, t);
    if ReaderStep(goal, s, t) {
      var x, level := s.reader.x, s.reader.level;
      assert LevelOrdered(s.next[level], s.linked[level]);
      assert IsNext(s.linked[level], x, s.next[level][x]);
    }
  }

  /** `x` and `n` are the two neighbours of the goal in `s`: nothing lies between them. */
  ghost predicate Answers(goal: Goal, s: set<Entry>, x: Ptr, n: Ptr) {
    && Holds(s, x) && IsNext(s, x, n)
    && (x.Head? || StepsOnto(goal, x))
    && !StepsOnto(goal, n)
  }

  lemma {:induction false} RunKeepsOrder(goal: Goal, run: seq<System>, k: nat)
    requires Run(goal, run) && ReaderOk(goal, run[0]) && k < |run|
    ensures SystemOk(run[k]) && |run[k].linked| == MAX_HEIGHT && ReaderOk(goal, run[k])
    decreases k
  {
    if k > 0 {
      RunKeepsOrder(goal, run, k - 1);
      assert Step(goal, run[k - 1], run[k - 1 + 1]);
      StepKeepsOrder(goal, run[k - 1], run[k]);
      StepKeepsReader(goal, run[k - 1], run[k]);
    }
  }

  lemma {:induction false} LinkedGrows(goal: Goal, run: seq<System>, j: nat, k: nat)
    requires Run(goal, run) && ReaderOk(goal, run[0]) && j <= k < |run|
    ensures |run[j].linked| == |run[k].linked| == MAX_HEIGHT && run[j].linked[0] <= run[k].linked[0]
    decreases k
  {
    hide SystemOk, Step, ReaderOk;
    RunKeepsOrder(goal, run, j);
    if j < k {
      LinkedGrows(goal, run, j, k - 1);
      RunKeepsOrder(goal, run, k - 1);
      assert Step(goal, run[k - 1], run[k - 1 + 1]);
      StepKeepsOrder(goal, run[k - 1], run[k]);
    }
  }

  /** The moment at which the reader's last load happened. */
  lemma {:induction false} AnsweredAt(goal: Goal, run: seq<System>, k: nat) returns (m: nat)
    requires Run(goal, run) && run[0].reader.Walking? && ReaderOk(goal, run[0])
    requires k < |run| && run[k].reader.Done?
    ensures m <= k && |run[m].linked| == MAX_HEIGHT
    ensures Answers(goal, run[m].linked[0], run[k].reader.x, run[k].reader.n)
    decreases k
  {
    RunKeepsOrder(goal, run, k - 1);
    assert Step(goal, run[k - 1], run[k - 1 + 1]);
    StepKeepsReader(goal, run[k - 1], run[k]);
    StepKeepsOrder(goal, run[k - 1], run[k]);
    if run[k - 1].reader.Done? {
      m := AnsweredAt(goal, run, k - 1);
    } else {
      m := k;
    }
  }

  /** A search that runs while entries are inserted, started from the head at whatever height,
      ends with the answer for the list as it was at one moment of the run; so it steps past no
      entry that belongs to its answer and was there when it began. */
  lemma SearchIsAtomic(goal: Goal, run: seq<System>, height: nat)
    requires Run(goal, run)
    requires run[0].reader == Walking(Head, height) && height < MAX_HEIGHT
    requires run[|run| - 1].reader.Done?
    ensures exists m :: 0 <= m < |run| && |run[m].linked| == MAX_HEIGHT &&
                        Answers(goal, run[m].linked[0], run[|run| - 1].reader.x, run[|run| - 1].reader.n)
    ensures goal.AtOrAfter? ==> SkipsNothing(goal.target, run[0].linked[0], run[|run| - 1].reader.n)
    ensures goal.LessThan? ==> SkipsNothingBelow(goal.target, run[0].linked[0], run[|run| - 1].reader.x)
  {
    var m := AnsweredAt(goal, run, |run| - 1);
    LinkedGrows(goal, run, 0, m);
    var x, n := run[|run| - 1].reader.x, run[|run| - 1].reader.n;
    AnswersSkipNothing(goal, run[m].linked[0], run[0].linked[0], x, n);
  }

  /** The node returned is at or after the target, and every entry of `s` at or after the target is at or after the node. */
  ghost predicate SkipsNothing(target: Entry, s: set<Entry>, n: Ptr) {
    && !n.Head?
    && (n.Node? ==> !Before(n.entry, target))
    && forall e :: e in s && !Before(e, target) ==> n.Node? && (e == n.entry || Before(n.entry, e))
  }

  ghost predicate SkipsNothingBelow(target: Entry, s: set<Entry>, x: Ptr) {
    && !x.Null?
    && (x.Node? ==> Before(x.entry, target))
    && forall e :: e in s && Before(e, target) ==> !Follows(e, x)
  }

  lemma AnswersSkipNothing(goal: Goal, s: set<Entry>, earlier: set<Entry>, x: Ptr, n: Ptr)
    requires Answers(goal, s, x, n) && earlier <= s
    ensures goal.AtOrAfter? ==> SkipsNothing(goal.target, earlier, n)
    ensures goal.LessThan? ==> SkipsNothingBelow(goal.target, earlier, x)
  {
    forall e | e in s && !goal.Last? && !Before(e, goal.target)
      ensures Follows(e, x)
    {
      if x.Node? {
        assert Before(x.entry, goal.target);
      }
    }
  }
}
