/** db/skiplist.h with one writer and any number of readers: every interleaving of the single stores
    of `Insert` with the single reads of the three searches, under sequential consistency. */
module SkipListRace {
  import opened Bytes
  import opened KeyOrder
  import opened Towers

  /** Nodes are numbered as they are created; the head is number 0. */
  type Id = nat
  const HEAD: Id := 0

  /** A `next_` slot: never written, or a pointer. */
  datatype Slot = Unset | To(node: Option<Id>)

  /** Where the writer stands in `Insert`. Entries of `prev` start out as the head, which is what
      `Insert` puts at the levels that its search does not reach. */
  datatype Writer<K> =
    | Idle
    | Locating(key: K, height: nat, at: Id, level: nat, prev: seq<Id>) // in its own search
    | Located(key: K, height: nat, prev: seq<Id>)                      // about to raise max_height_
    | Linking(x: Id, prev: seq<Id>, level: nat)                        // about to set the new node's slot
    | Publishing(x: Id, prev: seq<Id>, level: nat)                     // about to link the predecessor to it
    | Stuck                                                            // has read an unset slot

  /** What is searched for: by `FindGreaterOrEqual`, by `FindLessThan`, and by `FindLast`. */
  datatype Goal<K> = AtOrAfter(key: K) | LastBefore(key: K) | Last

  /** Where a reader stands in its search. */
  datatype Reader<K> =
    | Resting
    | Starting(goal: Goal<K>)
    | Searching(goal: Goal<K>, at: Id, level: nat)
    | Done(goal: Goal<K>, result: Option<Id>)
    | Broken // has read an unset slot

  /** The memory, and where everybody stands. `levels` records what has been published at each level,
      in link order; no step looks at it. */
  datatype State<K> = State(
    keys: seq<K>,
    next: seq<seq<Slot>>,
    maxHeight: nat,
    levels: seq<seq<Id>>,
    writer: Writer<K>,
    readers: seq<Reader<K>>
  )

  datatype Action<K> =
    | Insert(key: K, height: nat) // the writer is called; `height` is what it will draw
    | Write                       // its next read or store
    | Find(r: nat, goal: Goal<K>) // reader `r` is called
    | Read(r: nat)                // its next read

  // ---- Steps ----

  function GetSlot(next: seq<seq<Slot>>, x: Id, level: nat): Slot {
    if x < |next| && level < |next[x]| then next[x][level] else Unset
  }

  function SetSlot(next: seq<seq<Slot>>, x: Id, level: nat, slot: Slot): (r: seq<seq<Slot>>)
    ensures |r| == |next|
  {
    if x < |next| && level < |next[x]| then next[x := next[x][level := slot]] else next
  }

  /** The node is in front of what is searched for. */
  predicate InFront<K>(cmp: Comparator<K>, keys: seq<K>, goal: Goal<K>, x: Id) {
    x < |keys| && (goal.Last? || Before(cmp, keys[x], goal.key))
  }

  /** The test on a pointer just read: to go on to that node, or to go down. */
  predicate GoesOn<K>(cmp: Comparator<K>, keys: seq<K>, goal: Goal<K>, node: Option<Id>) {
    node.Some? && InFront(cmp, keys, goal, node.value)
  }

  /** What a search returns that stops at `at`, with `node` behind it. */
  function Result<K>(goal: Goal<K>, at: Id, node: Option<Id>): Option<Id> {
    if goal.AtOrAfter? then node else Some(at)
  }

  function WriteStep<K>(cmp: Comparator<K>, s: State<K>): State<K> {
    match s.writer
    case Locating(key, height, at, level, prev) =>
      var slot := GetSlot(s.next, at, level);
      if slot.Unset? || level >= |prev| then s.(writer := Stuck)
      else if GoesOn(cmp, s.keys, AtOrAfter(key), slot.node) then
        s.(writer := Locating(key, height, slot.node.value, level, prev))
      else
        var found := prev[level := at];
        s.(writer := if level == 0 then Located(key, height, found) else Locating(key, height, at, level - 1, found))
    case Located(key, height, prev) =>
      s.(maxHeight := if height > s.maxHeight then height else s.maxHeight,
         keys := s.keys + [key],
         next := s.next + [seq(height, _ => Unset)],
         writer := Linking(|s.keys|, prev, 0))
    case Linking(x, prev, level) =>
      if level >= |prev| || GetSlot(s.next, prev[level], level).Unset? then s.(writer := Stuck)
      else
        s.(next := SetSlot(s.next, x, level, GetSlot(s.next, prev[level], level)),
           writer := Publishing(x, prev, level))
    case Publishing(x, prev, level) =>
      if level >= |prev| || level >= |s.levels| || x >= |s.next| then s.(writer := Stuck)
      else
        s.(next := SetSlot(s.next, prev[level], level, To(Some(x))),
           levels := s.levels[level := Published(s.levels[level], prev[level], x)],
           writer := if level + 1 < |s.next[x]| then Linking(x, prev, level + 1) else Idle)
    case _ => s
  }

  /** The record of a level once `x` is linked behind `p`. */
  function Published(ids: seq<Id>, p: Id, x: Id): seq<Id> {
    if p == HEAD then [x] + ids
    else if ids == [] then ids
    else if ids[0] == p then [p, x] + ids[1..]
    else [ids[0]] + Published(ids[1..], p, x)
  }

  function ReadStep<K>(cmp: Comparator<K>, s: State<K>, reader: Reader<K>): Reader<K> {
    match reader
    case Starting(goal) =>
      if s.maxHeight > 0 then Searching(goal, HEAD, s.maxHeight - 1) else Broken
    case Searching(goal, at, level) =>
      (match GetSlot(s.next, at, level)
       case Unset => Broken
       case To(node) =>
         if GoesOn(cmp, s.keys, goal, node) then Searching(goal, node.value, level)
         else if level == 0 then Done(goal, Result(goal, at, node))
         else Searching(goal, at, level - 1))
    case _ => reader
  }

  function Step<K>(cmp: Comparator<K>, s: State<K>, a: Action<K>): State<K> {
    match a
    case Insert(key, height) =>
      if s.writer.Idle? && 1 <= height <= MAX_HEIGHT && s.maxHeight > 0
      then s.(writer := Locating(key, height, HEAD, s.maxHeight - 1, seq(MAX_HEIGHT, _ => HEAD))) else s
    case Write => WriteStep(cmp, s)
    case Find(r, goal) =>
      if r < |s.readers| && (s.readers[r].Resting? || s.readers[r].Done?)
      then s.(readers := s.readers[r := Starting(goal)]) else s
    case Read(r) =>
      if r < |s.readers| then s.(readers := s.readers[r := ReadStep(cmp, s, s.readers[r])]) else s
  }

  function Initial<K>(zero: K, readers: nat): State<K> {
    State([zero], [seq(MAX_HEIGHT, _ => To(None))], 1, seq(MAX_HEIGHT, _ => []), Idle, seq(readers, _ => Resting))
  }

  function Run<K>(cmp: Comparator<K>, s: State<K>, actions: seq<Action<K>>): State<K> {
    if actions == [] then s else Step(cmp, Run(cmp, s, actions[..|actions| - 1]), actions[|actions| - 1])
  }

  // ---- The list at one level ----

  predicate IdsFit(ids: seq<Id>, n: nat) {
    forall i | 0 <= i < |ids| :: 1 <= ids[i] < n
  }

  function KeysIn<K>(keys: seq<K>, ids: seq<Id>): (r: seq<K>)
    requires IdsFit(ids, |keys|)
    ensures |r| == |ids| && forall i | 0 <= i < |ids| :: r[i] == keys[ids[i]]
  {
    seq(|ids|, i requires 0 <= i < |ids| => keys[ids[i]])
  }

  /** The node in front of position `i`. */
  function NodeBefore(ids: seq<Id>, i: nat): Id
    requires i <= |ids|
  {
    if i == 0 then HEAD else ids[i - 1]
  }

  function IdAt(ids: seq<Id>, i: nat): Option<Id> {
    if i < |ids| then Some(ids[i]) else None
  }

  /** Following the slots of level `l` from the head runs through `ids` and ends in NULL. */
  ghost predicate Chained(next: seq<seq<Slot>>, ids: seq<Id>, l: nat) {
    forall i {:trigger NodeBefore(ids, i)} | 0 <= i <= |ids| :: GetSlot(next, NodeBefore(ids, i), l) == To(IdAt(ids, i))
  }

  ghost predicate LevelOK<K>(cmp: Comparator<K>, keys: seq<K>, next: seq<seq<Slot>>, ids: seq<Id>, l: nat) {
    IdsFit(ids, |keys|) && Distinct(ids) && Sorted(cmp, KeysIn(keys, ids)) && Chained(next, ids, l)
  }

  /** `at` is the head, or a node of the level in front of the goal. */
  ghost predicate OnLevel<K>(cmp: Comparator<K>, keys: seq<K>, ids: seq<Id>, at: Id, goal: Goal<K>) {
    at == HEAD || (at in ids && InFront(cmp, keys, goal, at))
  }

  /** How many keys of a list are in front of the goal. */
  function Place<K>(cmp: Comparator<K>, keys: seq<K>, goal: Goal<K>): (n: nat)
    ensures n <= |keys|
  {
    if goal.Last? then |keys| else LowerBound(cmp, keys, goal.key)
  }

  /** What a search of the whole list returns. */
  function AnswerIn<K>(cmp: Comparator<K>, keys: seq<K>, ids: seq<Id>, goal: Goal<K>): Option<Id>
    requires IdsFit(ids, |keys|)
  {
    var n := Place(cmp, KeysIn(keys, ids), goal);
    Result(goal, NodeBefore(ids, n), IdAt(ids, n))
  }

  /** Exactly the first `n` nodes have keys before `key`. */
  ghost predicate SplitsAt<K>(cmp: Comparator<K>, keys: seq<K>, ids: seq<Id>, key: K, n: nat) {
    && IdsFit(ids, |keys|) && n <= |ids|
    && forall i | 0 <= i < |ids| :: Before(cmp, keys[ids[i]], key) <==> i < n
  }

  /** The answers in plain terms: the first node not before the key, if there is one; the last node before it, or the
      head; and the last node of all, or the head. */
  lemma AnswerMeans<K(!new)>(cmp: Comparator<K>, keys: seq<K>, ids: seq<Id>, goal: Goal<K>)
    requires TotalPreorder(cmp) && IdsFit(ids, |keys|) && Sorted(cmp, KeysIn(keys, ids))
    ensures var answer := AnswerIn(cmp, keys, ids, goal);
      match goal
      case AtOrAfter(key) =>
        exists n: nat :: SplitsAt(cmp, keys, ids, key, n) && answer == if n < |ids| then Some(ids[n]) else None
      case LastBefore(key) =>
        exists n: nat :: SplitsAt(cmp, keys, ids, key, n) && answer == Some(if n > 0 then ids[n - 1] else 0)
      case Last => answer == Some(if ids != [] then ids[|ids| - 1] else 0)
  {
    if !goal.Last? {
      var sorted := KeysIn(keys, ids);
      var n := LowerBound(cmp, sorted, goal.key);
      LowerBoundSplits(cmp, sorted, goal.key);
      forall i | 0 <= i < |ids| ensures Before(cmp, keys[ids[i]], goal.key) <==> i < n {
        assert sorted[i] == keys[ids[i]];
      }
      assert SplitsAt(cmp, keys, ids, goal.key, n);
    }
  }

  /** `p` is the last node of the level before `key`. */
  ghost predicate IsPrev<K>(cmp: Comparator<K>, keys: seq<K>, ids: seq<Id>, p: Id, key: K) {
    IdsFit(ids, |keys|) && p == NodeBefore(ids, LowerBound(cmp, KeysIn(keys, ids), key))
  }

  /** One read of a search at a node of the level: the slot is set, and leads to the next node of the
      level; if the search stops there, it has found the place of its goal. */
  lemma ReadOnLevel<K(!new)>(cmp: Comparator<K>, keys: seq<K>, next: seq<seq<Slot>>, ids: seq<Id>, l: nat, at: Id,
                             goal: Goal<K>)
    requires TotalPreorder(cmp) && LevelOK(cmp, keys, next, ids, l) && OnLevel(cmp, keys, ids, at, goal)
    ensures var slot := GetSlot(next, at, l);
      && slot.To? && IdsFit(ids, |keys|)
      && if GoesOn(cmp, keys, goal, slot.node)
         then OnLevel(cmp, keys, ids, slot.node.value, goal)
         else
           && at == NodeBefore(ids, Place(cmp, KeysIn(keys, ids), goal))
           && slot.node == IdAt(ids, Place(cmp, KeysIn(keys, ids), goal))
           && (!goal.Last? ==> IsPrev(cmp, keys, ids, at, goal.key))
  {
    var i := PositionOf(ids, at);
    var sorted := KeysIn(keys, ids);
    assert GetSlot(next, NodeBefore(ids, i), l) == To(IdAt(ids, i));
    if !GoesOn(cmp, keys, goal, IdAt(ids, i)) && !goal.Last? {
      LowerBoundSplits(cmp, sorted, goal.key);
      LowerBoundUnique(cmp, sorted, goal.key, i);
    }
  }

  lemma PositionOf(ids: seq<Id>, at: Id) returns (i: nat)
    requires at == HEAD || at in ids
    ensures i <= |ids| && NodeBefore(ids, i) == at && (at != HEAD ==> i > 0 && ids[i - 1] == at)
  {
    if at == HEAD {
      i := 0;
    } else {
      var k :| 0 <= k < |ids| && ids[k] == at;
      i := k + 1;
    }
  }

  // ---- Publishing at one level ----

  /** The record after a publication is the old one with the new node in its sorted place. */
  lemma {:induction false} PublishedInserts(ids: seq<Id>, n: nat, x: Id)
    requires n <= |ids| && Distinct(ids) && HEAD !in ids
    ensures Published(ids, NodeBefore(ids, n), x) == InsertAt(ids, n, x)
  {
    if n > 1 {
      assert ids[0] != ids[n - 1];
      assert ids[1..][n - 2] == ids[n - 1];
      PublishedInserts(ids[1..], n - 1, x);
    }
  }

  lemma KeysAfterInsert<K>(keys: seq<K>, ids: seq<Id>, n: nat, x: Id)
    requires IdsFit(ids, |keys|) && n <= |ids| && 1 <= x < |keys|
    ensures IdsFit(InsertAt(ids, n, x), |keys|)
    ensures KeysIn(keys, InsertAt(ids, n, x)) == InsertAt(KeysIn(keys, ids), n, keys[x])
  {
    hide InsertAt;
    forall i | 0 <= i <= |ids| ensures 1 <= InsertAt(ids, n, x)[i] < |keys|
    {
      InsertedAt(ids, n, x, i);
    }
    forall i | 0 <= i <= |ids|
      ensures KeysIn(keys, InsertAt(ids, n, x))[i] == InsertAt(KeysIn(keys, ids), n, keys[x])[i]
    {
      InsertedAt(ids, n, x, i);
      InsertedAt(KeysIn(keys, ids), n, keys[x], i);
    }
  }

  lemma DistinctAfterInsert(ids: seq<Id>, n: nat, x: Id)
    requires Distinct(ids) && x !in ids && n <= |ids|
    ensures Distinct(InsertAt(ids, n, x))
  {
    hide InsertAt;
    var after := InsertAt(ids, n, x);
    forall i, j | 0 <= i < j < |after| ensures after[i] != after[j] {
      InsertedAt(ids, n, x, i);
      InsertedAt(ids, n, x, j);
    }
  }

  lemma MembersAfterInsert(ids: seq<Id>, n: nat, x: Id, y: Id)
    requires n <= |ids|
    ensures y in InsertAt(ids, n, x) <==> y == x || y in ids
  {
    var after := InsertAt(ids, n, x);
    assert after[n] == x;
    if y in ids {
      var i :| 0 <= i < |ids| && ids[i] == y;
      assert after[if i < n then i else i + 1] == y;
    }
  }

  /** Linking `x` in: its own slot already holds its predecessor's link, which then points to it. */
  lemma ChainedAfterPublish(next: seq<seq<Slot>>, ids: seq<Id>, l: nat, n: nat, x: Id)
    requires Chained(next, ids, l) && Distinct(ids) && HEAD !in ids
    requires n <= |ids| && x != HEAD && x !in ids
    requires GetSlot(next, x, l) == GetSlot(next, NodeBefore(ids, n), l)
    ensures Chained(SetSlot(next, NodeBefore(ids, n), l, To(Some(x))), InsertAt(ids, n, x), l)
  {
    hide InsertAt;
    var p, after := NodeBefore(ids, n), InsertAt(ids, n, x);
    var next' := SetSlot(next, p, l, To(Some(x)));
    assert GetSlot(next, p, l) == To(IdAt(ids, n));
    forall i | 0 <= i <= |after| ensures GetSlot(next', NodeBefore(after, i), l) == To(IdAt(after, i)) {
      if i < |after| { InsertedAt(ids, n, x, i); }
      if i > 0 { InsertedAt(ids, n, x, i - 1); }
      if i <= n {
        assert NodeBefore(after, i) == NodeBefore(ids, i);
        assert GetSlot(next, NodeBefore(ids, i), l) == To(IdAt(ids, i));
      } else if i == n + 1 {
        assert NodeBefore(after, i) == x;
      } else {
        assert NodeBefore(after, i) == NodeBefore(ids, i - 1);
        assert GetSlot(next, NodeBefore(ids, i - 1), l) == To(IdAt(ids, i - 1));
      }
    }
  }

  /** A publication keeps the level in order, and is an insertion into its sorted sequence of keys. */
  lemma LevelAfterPublish<K(!new)>(cmp: Comparator<K>, keys: seq<K>, next: seq<seq<Slot>>, ids: seq<Id>, l: nat, x: Id, p: Id)
    requires TotalPreorder(cmp) && LevelOK(cmp, keys, next, ids, l)
    requires 1 <= x < |keys| && x !in ids && IsPrev(cmp, keys, ids, p, keys[x])
    requires GetSlot(next, x, l) == GetSlot(next, p, l)
    ensures var after := Published(ids, p, x);
      && LevelOK(cmp, keys, SetSlot(next, p, l, To(Some(x))), after, l)
      && KeysIn(keys, after) == InsertKey(cmp, KeysIn(keys, ids), keys[x])
      && forall y :: y in after <==> y == x || y in ids
  {
    var n := LowerBound(cmp, KeysIn(keys, ids), keys[x]);
    assert HEAD !in ids;
    hide Chained, Sorted, LowerBound, InsertAt, Distinct;
    PublishedInserts(ids, n, x);
    KeysAfterInsert(keys, ids, n, x);
    DistinctAfterInsert(ids, n, x);
    ChainedAfterPublish(next, ids, l, n, x);
    InsertKeySorted(cmp, KeysIn(keys, ids), keys[x]);
    forall y: Id ensures y in InsertAt(ids, n, x) <==> y == x || y in ids {
      MembersAfterInsert(ids, n, x, y);
    }
  }

  /** A store elsewhere does not concern a level. */
  lemma LevelFramed<K>(cmp: Comparator<K>, keys: seq<K>, next: seq<seq<Slot>>, keys': seq<K>, next': seq<seq<Slot>>,
                       ids: seq<Id>, l: nat)
    requires LevelOK(cmp, keys, next, ids, l) && keys <= keys'
    requires forall y | y == HEAD || y in ids :: GetSlot(next', y, l) == GetSlot(next, y, l)
    ensures LevelOK(cmp, keys', next', ids, l) && KeysIn(keys', ids) == KeysIn(keys, ids)
  {
    forall i | 0 <= i <= |ids| ensures GetSlot(next', NodeBefore(ids, i), l) == To(IdAt(ids, i)) {
      assert GetSlot(next, NodeBefore(ids, i), l) == To(IdAt(ids, i));
    }
    assert KeysIn(keys', ids) == KeysIn(keys, ids);
  }

  // ---- The invariant ----

  ghost predicate MemoryOK<K>(cmp: Comparator<K>, s: State<K>) {
    && |s.keys| == |s.next| > 0 && |s.levels| == MAX_HEIGHT
    && 1 <= s.maxHeight <= MAX_HEIGHT
    && (forall l | 0 <= l < MAX_HEIGHT :: LevelOK(cmp, s.keys, s.next, s.levels[l], l))
    && (forall l | s.maxHeight <= l < MAX_HEIGHT :: s.levels[l] == [])
    && (forall l | 0 < l < MAX_HEIGHT :: Nested(s.levels, l))
  }

  ghost predicate Nested(levels: seq<seq<Id>>, l: nat)
    requires 0 < l < |levels|
  {
    forall y | y in levels[l] :: y in levels[l - 1]
  }

  ghost predicate PrevsOK<K>(cmp: Comparator<K>, s: State<K>, key: K, prev: seq<Id>, from: nat)
    requires |s.levels| == MAX_HEIGHT
  {
    |prev| == MAX_HEIGHT && forall l | from <= l < MAX_HEIGHT :: IsPrev(cmp, s.keys, s.levels[l], prev[l], key)
  }

  /** The node being inserted is on the levels below `level`, and not yet on the others. */
  ghost predicate NodeOK<K>(s: State<K>, x: Id, level: nat)
    requires |s.levels| == MAX_HEIGHT
  {
    && 1 <= x < |s.keys| == |s.next| && level < |s.next[x]| <= s.maxHeight <= MAX_HEIGHT
    && (forall l | 0 <= l < level :: x in s.levels[l])
    && (forall l | level <= l < MAX_HEIGHT :: x !in s.levels[l])
  }

  ghost predicate WriterOK<K>(cmp: Comparator<K>, s: State<K>)
    requires |s.levels| == MAX_HEIGHT
  {
    match s.writer
    case Idle => true
    case Locating(key, height, at, level, prev) =>
      && 1 <= height <= MAX_HEIGHT && level < s.maxHeight <= MAX_HEIGHT
      && OnLevel(cmp, s.keys, s.levels[level], at, AtOrAfter(key)) && PrevsOK(cmp, s, key, prev, level + 1)
    case Located(key, height, prev) => 1 <= height <= MAX_HEIGHT && PrevsOK(cmp, s, key, prev, 0)
    case Linking(x, prev, level) => NodeOK(s, x, level) && PrevsOK(cmp, s, s.keys[x], prev, level)
    case Publishing(x, prev, level) =>
      && NodeOK(s, x, level) && PrevsOK(cmp, s, s.keys[x], prev, level)
      && GetSlot(s.next, x, level) == GetSlot(s.next, prev[level], level)
    case Stuck => false
  }

  ghost predicate ReaderOK<K>(cmp: Comparator<K>, s: State<K>, reader: Reader<K>)
    requires |s.levels| == MAX_HEIGHT
  {
    match reader
    case Searching(goal, at, level) =>
      level < s.maxHeight <= MAX_HEIGHT && OnLevel(cmp, s.keys, s.levels[level], at, goal)
    case Broken => false
    case _ => true
  }

  ghost predicate Inv<K>(cmp: Comparator<K>, s: State<K>) {
    MemoryOK(cmp, s) && WriterOK(cmp, s) && forall r | 0 <= r < |s.readers| :: ReaderOK(cmp, s, s.readers[r])
  }

  /** Nothing is ever unlinked. */
  ghost predicate Grows<K>(s: State<K>, s': State<K>) {
    && s.keys <= s'.keys && s.maxHeight <= s'.maxHeight && |s.levels| == |s'.levels|
    && forall l, y | 0 <= l < |s.levels| && y in s.levels[l] :: y in s'.levels[l]
  }

  lemma ReaderFramed<K>(cmp: Comparator<K>, s: State<K>, s': State<K>, reader: Reader<K>)
    requires |s.levels| == MAX_HEIGHT && ReaderOK(cmp, s, reader) && Grows(s, s') && s'.maxHeight <= MAX_HEIGHT
    ensures |s'.levels| == MAX_HEIGHT && ReaderOK(cmp, s', reader)
  {
  }

  // ---- Every step keeps it ----

  lemma InitialInv<K(!new)>(cmp: Comparator<K>, zero: K, readers: nat)
    requires TotalPreorder(cmp)
    ensures Inv(cmp, Initial(zero, readers))
  {
  }

  lemma ReadKeepsReader<K(!new)>(cmp: Comparator<K>, s: State<K>, reader: Reader<K>)
    requires TotalPreorder(cmp) && MemoryOK(cmp, s) && ReaderOK(cmp, s, reader)
    ensures ReaderOK(cmp, s, ReadStep(cmp, s, reader))
  {
    if reader.Searching? {
      hide LevelOK, OnLevel, IsPrev, TotalPreorder;
      ReadOnLevel(cmp, s.keys, s.next, s.levels[reader.level], reader.level, reader.at, reader.goal);
      if reader.level > 0 { OnLevelBelow(cmp, s, reader.level, reader.at, reader.goal); }
    } else if reader.Starting? {
    }
  }

  lemma OnLevelBelow<K>(cmp: Comparator<K>, s: State<K>, level: nat, at: Id, goal: Goal<K>)
    requires MemoryOK(cmp, s) && 0 < level < MAX_HEIGHT && OnLevel(cmp, s.keys, s.levels[level], at, goal)
    ensures OnLevel(cmp, s.keys, s.levels[level - 1], at, goal)
  {
    assert Nested(s.levels, level);
  }

  lemma LocatingKeepsInv<K(!new)>(cmp: Comparator<K>, s: State<K>)
    requires TotalPreorder(cmp) && MemoryOK(cmp, s) && WriterOK(cmp, s) && s.writer.Locating?
    ensures var s' := WriteStep(cmp, s);
      MemoryOK(cmp, s') && WriterOK(cmp, s') && s' == s.(writer := s'.writer)
  {
    var w := s.writer;
    hide LevelOK, OnLevel, IsPrev, TotalPreorder;
    ReadOnLevel(cmp, s.keys, s.next, s.levels[w.level], w.level, w.at, AtOrAfter(w.key));
    if w.level > 0 { OnLevelBelow(cmp, s, w.level, w.at, AtOrAfter(w.key)); }
  }

  lemma LocatedKeepsInv<K(!new)>(cmp: Comparator<K>, s: State<K>)
    requires TotalPreorder(cmp) && MemoryOK(cmp, s) && WriterOK(cmp, s) && s.writer.Located?
    ensures var s' := WriteStep(cmp, s);
      MemoryOK(cmp, s') && WriterOK(cmp, s') && Grows(s, s') && s'.readers == s.readers && s'.levels == s.levels
  {
    var s', prev, key := WriteStep(cmp, s), s.writer.prev, s.writer.key;
    forall l | 0 <= l < MAX_HEIGHT
      ensures LevelOK(cmp, s'.keys, s'.next, s.levels[l], l) && |s.keys| !in s.levels[l]
      ensures IsPrev(cmp, s'.keys, s.levels[l], prev[l], key)
    {
      LevelFramed(cmp, s.keys, s.next, s'.keys, s'.next, s.levels[l], l);
    }
    hide LevelOK, IsPrev, TotalPreorder;
    forall l | 0 < l < MAX_HEIGHT ensures Nested(s'.levels, l) {
      assert Nested(s.levels, l);
    }
  }

  /** A store into a slot of a node that is not on a level leaves the level alone. */
  lemma LevelUntouched<K>(cmp: Comparator<K>, keys: seq<K>, next: seq<seq<Slot>>, ids: seq<Id>, l: nat,
                          x: Id, level: nat, slot: Slot)
    requires LevelOK(cmp, keys, next, ids, l) && (l != level || (x != HEAD && x !in ids))
    ensures LevelOK(cmp, keys, SetSlot(next, x, level, slot), ids, l)
  {
    hide IdsFit, Distinct, Sorted;
    LevelFramed(cmp, keys, next, keys, SetSlot(next, x, level, slot), ids, l);
  }

  lemma LinkingKeepsInv<K(!new)>(cmp: Comparator<K>, s: State<K>)
    requires TotalPreorder(cmp) && MemoryOK(cmp, s) && WriterOK(cmp, s) && s.writer.Linking?
    ensures var s' := WriteStep(cmp, s);
      MemoryOK(cmp, s') && WriterOK(cmp, s') && s'.levels == s.levels && s'.keys == s.keys
      && s'.maxHeight == s.maxHeight && s'.readers == s.readers
  {
    var x, prev, level := s.writer.x, s.writer.prev, s.writer.level;
    var slot := GetSlot(s.next, prev[level], level);
    PrevSlotSet(cmp, s.keys, s.next, s.levels[level], level, prev[level], s.keys[x]);
    forall l | 0 <= l < MAX_HEIGHT
      ensures LevelOK(cmp, s.keys, SetSlot(s.next, x, level, slot), s.levels[l], l)
    {
      LevelUntouched(cmp, s.keys, s.next, s.levels[l], l, x, level, slot);
    }
    hide LevelOK, IsPrev, TotalPreorder;
  }

  /** A predecessor's slot is set; and the predecessor is the head or a node of the level. */
  lemma PrevSlotSet<K>(cmp: Comparator<K>, keys: seq<K>, next: seq<seq<Slot>>, ids: seq<Id>, l: nat, p: Id, key: K)
    requires LevelOK(cmp, keys, next, ids, l) && IsPrev(cmp, keys, ids, p, key)
    ensures GetSlot(next, p, l).To? && (p == HEAD || p in ids)
  {
    var n := LowerBound(cmp, KeysIn(keys, ids), key);
    assert GetSlot(next, NodeBefore(ids, n), l) == To(IdAt(ids, n));
  }

  lemma PublishingKeepsMemory<K(!new)>(cmp: Comparator<K>, s: State<K>)
    requires TotalPreorder(cmp) && MemoryOK(cmp, s) && WriterOK(cmp, s) && s.writer.Publishing?
    ensures var s', x, level := WriteStep(cmp, s), s.writer.x, s.writer.level;
      && MemoryOK(cmp, s') && s'.keys == s.keys && s'.maxHeight == s.maxHeight && s'.readers == s.readers
      && |s'.next[x]| == |s.next[x]|
      && (forall l | 0 <= l < MAX_HEIGHT && l != level :: s'.levels[l] == s.levels[l])
      && (forall y :: y in s'.levels[level] <==> y == x || y in s.levels[level])
      && KeysIn(s.keys, s'.levels[level]) == InsertKey(cmp, KeysIn(s.keys, s.levels[level]), s.keys[x])
  {
    var x, prev, level := s.writer.x, s.writer.prev, s.writer.level;
    hide LevelOK, IsPrev, Nested, TotalPreorder, Published, InsertKey, SetSlot;
    LevelAfterPublish(cmp, s.keys, s.next, s.levels[level], level, x, prev[level]);
    var ids := Published(s.levels[level], prev[level], x);
    NestedAfterPublish(s.levels, level, x, ids, s.levels[level := ids]);
    forall l | 0 <= l < MAX_HEIGHT && l != level
      ensures LevelOK(cmp, s.keys, SetSlot(s.next, prev[level], level, To(Some(x))), s.levels[l], l)
    {
      LevelUntouched(cmp, s.keys, s.next, s.levels[l], l, prev[level], level, To(Some(x)));
    }
    SetSlotSizes(s.next, prev[level], level, To(Some(x)), x);
  }

  lemma SetSlotSizes(next: seq<seq<Slot>>, p: Id, level: nat, slot: Slot, x: Id)
    requires x < |next|
    ensures |SetSlot(next, p, level, slot)| == |next| && |SetSlot(next, p, level, slot)[x]| == |next[x]|
  {
  }

  lemma NestedAfterPublish(levels: seq<seq<Id>>, level: nat, x: Id, ids: seq<Id>, after: seq<seq<Id>>)
    requires level < |levels| == MAX_HEIGHT && forall l | 0 < l < MAX_HEIGHT :: Nested(levels, l)
    requires after == levels[level := ids] && forall y :: y in ids <==> y == x || y in levels[level]
    requires level > 0 ==> x in levels[level - 1]
    ensures forall l | 0 < l < MAX_HEIGHT :: Nested(after, l)
  {
    forall l | 0 < l < MAX_HEIGHT ensures Nested(after, l) {
      assert Nested(levels, l);
    }
  }

  lemma PublishingKeepsInv<K(!new)>(cmp: Comparator<K>, s: State<K>)
    requires TotalPreorder(cmp) && MemoryOK(cmp, s) && WriterOK(cmp, s) && s.writer.Publishing?
    ensures var s' := WriteStep(cmp, s);
      MemoryOK(cmp, s') && WriterOK(cmp, s') && Grows(s, s') && s'.readers == s.readers
  {
    PublishingKeepsMemory(cmp, s);
    hide MemoryOK, IsPrev, TotalPreorder, Published;
  }

  lemma WriteKeepsInv<K(!new)>(cmp: Comparator<K>, s: State<K>)
    requires TotalPreorder(cmp) && Inv(cmp, s)
    ensures var s' := WriteStep(cmp, s);
      MemoryOK(cmp, s') && WriterOK(cmp, s') && Grows(s, s') && s'.readers == s.readers
  {
    hide MemoryOK, WriterOK, TotalPreorder;
    match s.writer
    case Idle =>
    case Locating(_, _, _, _, _) => LocatingKeepsInv(cmp, s);
    case Located(_, _, _) => LocatedKeepsInv(cmp, s);
    case Linking(_, _, _) => LinkingKeepsInv(cmp, s);
    case Publishing(_, _, _) => PublishingKeepsInv(cmp, s);
    case Stuck =>
  }

  /** Above the levels in use the head is the predecessor of any key. */
  lemma HeadIsPrev<K>(cmp: Comparator<K>, s: State<K>, key: K)
    requires MemoryOK(cmp, s)
    ensures PrevsOK(cmp, s, key, seq(MAX_HEIGHT, _ => HEAD), s.maxHeight)
  {
  }

  lemma StepKeepsInv<K(!new)>(cmp: Comparator<K>, s: State<K>, a: Action<K>)
    requires TotalPreorder(cmp) && Inv(cmp, s)
    ensures Inv(cmp, Step(cmp, s, a)) && Grows(s, Step(cmp, s, a))
  {
    hide LevelOK, IsPrev, Nested, TotalPreorder, WriteStep, ReadStep, InFront;
    var s' := Step(cmp, s, a);
    match a
    case Insert(key, height) =>
      HeadIsPrev(cmp, s, key);
    case Write =>
      WriteKeepsInv(cmp, s);
      forall r | 0 <= r < |s.readers| ensures ReaderOK(cmp, s', s.readers[r]) {
        ReaderFramed(cmp, s, s', s.readers[r]);
      }
    case Find(r, goal) =>
    case Read(r) =>
      if r < |s.readers| { ReadKeepsReader(cmp, s, s.readers[r]); }
  }

  // ---- Whole runs ----

  lemma {:induction false} RunKeepsInv<K(!new)>(cmp: Comparator<K>, s: State<K>, actions: seq<Action<K>>)
    requires TotalPreorder(cmp) && Inv(cmp, s)
    ensures Inv(cmp, Run(cmp, s, actions)) && Grows(s, Run(cmp, s, actions))
  {
    hide Inv, TotalPreorder, Step;
    if actions != [] {
      var init := actions[..|actions| - 1];
      RunKeepsInv(cmp, s, init);
      StepKeepsInv(cmp, Run(cmp, s, init), actions[|actions| - 1]);
    }
  }

  /** In no interleaving does anybody read a slot that was never set, and every search stands on its
      level, in front of its goal. */
  lemma RunsAreSafe<K(!new)>(cmp: Comparator<K>, zero: K, readers: nat, actions: seq<Action<K>>)
    requires TotalPreorder(cmp)
    ensures var s := Run(cmp, Initial(zero, readers), actions);
      && !s.writer.Stuck?
      && (forall l | 0 <= l < MAX_HEIGHT :: l < |s.levels| && LevelOK(cmp, s.keys, s.next, s.levels[l], l))
      && (forall r | 0 <= r < |s.readers| :: !s.readers[r].Broken?)
      && (forall r | 0 <= r < |s.readers| && s.readers[r].Searching? ::
            && s.readers[r].level < |s.levels|
            && OnLevel(cmp, s.keys, s.levels[s.readers[r].level], s.readers[r].at, s.readers[r].goal))
  {
    InitialInv(cmp, zero, readers);
    RunKeepsInv(cmp, Initial(zero, readers), actions);
    hide LevelOK, OnLevel, IsPrev, TotalPreorder, Run;
    var s := Run(cmp, Initial(zero, readers), actions);
    forall r | 0 <= r < |s.readers| ensures ReaderOK(cmp, s, s.readers[r]) {
    }
  }

  /** Reader `r` is about to make its last read. */
  predicate AboutToFinish<K>(cmp: Comparator<K>, s: State<K>, r: nat) {
    r < |s.readers| && s.readers[r].Searching? && ReadStep(cmp, s, s.readers[r]).Done?
  }

  /** A search answers as it would alone on the level-0 list as it is at the moment of its last read: with the
      first node whose key is not before the target, the last node whose key is, or the last node. */
  lemma AnswerIsRight<K(!new)>(cmp: Comparator<K>, s: State<K>, r: nat)
    requires TotalPreorder(cmp) && Inv(cmp, s) && AboutToFinish(cmp, s, r)
    ensures var goal := s.readers[r].goal;
      && |s.levels| > 0 && IdsFit(s.levels[0], |s.keys|)
      && Step(cmp, s, Read(r)).readers[r] == Done(goal, AnswerIn(cmp, s.keys, s.levels[0], goal))
  {
    var reader := s.readers[r];
    assert ReaderOK(cmp, s, reader);
    ReadOnLevel(cmp, s.keys, s.next, s.levels[0], 0, reader.at, reader.goal);
  }

  /** From a published node an iterator may go on at any time: its slot is set, and leads to the node
      that comes next in the level-0 list as it is at the moment of the read. */
  lemma PublishedNodeCanBeLeft<K(!new)>(cmp: Comparator<K>, s: State<K>, i: nat)
    requires Inv(cmp, s) && i < |s.levels[0]|
    ensures GetSlot(s.next, s.levels[0][i], 0) == To(IdAt(s.levels[0], i + 1))
  {
    var ids := s.levels[0];
    assert LevelOK(cmp, s.keys, s.next, ids, 0);
    assert GetSlot(s.next, NodeBefore(ids, i + 1), 0) == To(IdAt(ids, i + 1));
  }

  /** A search that finishes after an insertion has reached level 0 does not miss it, whenever the
      search began: what it finds is not after the inserted key. */
  lemma EarlierInsertIsSeen<K(!new)>(cmp: Comparator<K>, s: State<K>, actions: seq<Action<K>>, r: nat, y: Id)
    requires TotalPreorder(cmp) && Inv(cmp, s) && y in s.levels[0]
    requires AboutToFinish(cmp, Run(cmp, s, actions), r)
    requires Run(cmp, s, actions).readers[r].goal.AtOrAfter?
    requires y < |s.keys| && !Before(cmp, s.keys[y], Run(cmp, s, actions).readers[r].goal.key)
    ensures var s' := Run(cmp, s, actions);
      var answer := Step(cmp, s', Read(r)).readers[r];
      && answer.Done? && answer.result.Some? && answer.result.value < |s'.keys|
      && !Before(cmp, s.keys[y], s'.keys[answer.result.value])
  {
    var s' := Run(cmp, s, actions);
    RunKeepsInv(cmp, s, actions);
    AnswerIsRight(cmp, s', r);
    hide Run, Step;
    assert LevelOK(cmp, s'.keys, s'.next, s'.levels[0], 0) && y in s'.levels[0];
    var ids, target := s'.levels[0], s'.readers[r].goal.key;
    var i :| 0 <= i < |ids| && ids[i] == y;
    var sorted := KeysIn(s'.keys, ids);
    var n := LowerBound(cmp, sorted, target);
    assert sorted[i] == s.keys[y];
    assert n <= i;
    assert n == i || !Before(cmp, sorted[i], sorted[n]);
    EqualIff(cmp, sorted[i], sorted[i]);
  }

  /** The keys whose level-0 publication is part of a run, in that order. */
  function Insertions<K>(cmp: Comparator<K>, s: State<K>, actions: seq<Action<K>>): seq<K> {
    if actions == [] then []
    else
      var before := Run(cmp, s, actions[..|actions| - 1]);
      var earlier := Insertions(cmp, s, actions[..|actions| - 1]);
      if actions[|actions| - 1].Write? && before.writer.Publishing? && before.writer.level == 0
         && before.writer.x < |before.keys|
      then earlier + [before.keys[before.writer.x]] else earlier
  }

  lemma StepInserts<K(!new)>(cmp: Comparator<K>, s: State<K>, a: Action<K>)
    requires TotalPreorder(cmp) && Inv(cmp, s)
    ensures var s' := Step(cmp, s, a);
      && |s.levels| > 0 && |s'.levels| > 0 && IdsFit(s.levels[0], |s.keys|) && IdsFit(s'.levels[0], |s'.keys|)
      && KeysIn(s'.keys, s'.levels[0])
         == if a.Write? && s.writer.Publishing? && s.writer.level == 0 && s.writer.x < |s.keys|
            then InsertKey(cmp, KeysIn(s.keys, s.levels[0]), s.keys[s.writer.x])
            else KeysIn(s.keys, s.levels[0])
  {
    StepKeepsInv(cmp, s, a);
    var s' := Step(cmp, s, a);
    assert LevelOK(cmp, s.keys, s.next, s.levels[0], 0) && LevelOK(cmp, s'.keys, s'.next, s'.levels[0], 0);
    if a.Write? {
      match s.writer
      case Located(_, _, _) =>
        LocatedKeepsInv(cmp, s);
        assert KeysIn(s'.keys, s'.levels[0]) == KeysIn(s.keys, s.levels[0]);
      case Publishing(_, _, _) => PublishingKeepsMemory(cmp, s);
      case _ =>
    }
  }

  /** In every interleaving, level 0 holds exactly the keys published so far, as a sequential list
      would hold them. */
  lemma {:induction false} RunIsSequentialList<K(!new)>(cmp: Comparator<K>, zero: K, readers: nat, actions: seq<Action<K>>)
    requires TotalPreorder(cmp)
    ensures var s := Run(cmp, Initial(zero, readers), actions);
      && |s.levels| > 0 && IdsFit(s.levels[0], |s.keys|)
      && KeysIn(s.keys, s.levels[0]) == InsertAll(cmp, Insertions(cmp, Initial(zero, readers), actions))
  {
    var first := Initial(zero, readers);
    InitialInv(cmp, zero, readers);
    if actions == [] {
      assert KeysIn(first.keys, first.levels[0]) == [];
    } else {
      var init, a := actions[..|actions| - 1], actions[|actions| - 1];
      hide Inv, TotalPreorder, Step, InsertKey, KeysIn;
      RunIsSequentialList(cmp, zero, readers, init);
      RunKeepsInv(cmp, first, init);
      StepInserts(cmp, Run(cmp, first, init), a);
      var earlier, all := Insertions(cmp, first, init), Insertions(cmp, first, actions);
      if all != earlier { assert all[..|all| - 1] == earlier; }
    }
  }
}
