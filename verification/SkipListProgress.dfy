/** db/skiplist.h: a search among concurrent insertions comes to an end, and after how many reads. */
module SkipListProgress {
  import opened Bytes
  import opened KeyOrder
  import opened Towers
  import opened SkipListRace

  // ---- Places in the level-0 list ----

  /** The place of a node in a list, counted from 1; 0 if it is not in the list, as the head is not. */
  function Pos(ids: seq<Id>, x: Id): (p: nat)
    ensures p <= |ids| && (p > 0 ==> ids[p - 1] == x)
  {
    if ids == [] then 0
    else if ids[|ids| - 1] == x then |ids|
    else Pos(ids[..|ids| - 1], x)
  }

  lemma {:induction false} PosAt(ids: seq<Id>, i: nat)
    requires Distinct(ids) && i < |ids|
    ensures Pos(ids, ids[i]) == i + 1
  {
    if i < |ids| - 1 {
      PosAt(ids[..|ids| - 1], i);
    }
  }

  lemma {:induction false} PosAbsent(ids: seq<Id>, x: Id)
    requires x !in ids
    ensures Pos(ids, x) == 0
  {
    if ids != [] {
      PosAbsent(ids[..|ids| - 1], x);
    }
  }

  /** An insertion moves the places behind it by one. */
  lemma PosAfterInsert(ids: seq<Id>, n: nat, x: Id, y: Id)
    requires n <= |ids| && Distinct(InsertAt(ids, n, x)) && Distinct(ids) && y in ids
    ensures Pos(InsertAt(ids, n, x), y) == if Pos(ids, y) <= n then Pos(ids, y) else Pos(ids, y) + 1
  {
    hide Distinct, InsertAt;
    var i :| 0 <= i < |ids| && ids[i] == y;
    PosAt(ids, i);
    var j := if i < n then i else i + 1;
    InsertedAt(ids, n, x, j);
    PosAt(InsertAt(ids, n, x), j);
  }

  /** The nodes of `upper` stand in the same order in `lower`. */
  ghost predicate InOrder(upper: seq<Id>, lower: seq<Id>) {
    && (forall i | 0 <= i < |upper| :: Pos(lower, upper[i]) > 0)
    && (forall i, j | 0 <= i < j < |upper| :: Pos(lower, upper[i]) < Pos(lower, upper[j]))
  }

  /** In front of `x` there are only keys before its own. */
  ghost predicate FirstOfEquals<K>(cmp: Comparator<K>, keys: seq<K>, ids: seq<Id>, x: Id) {
    && IdsFit(ids, |keys|) && x < |keys| && Pos(ids, x) > 0
    && forall i | 0 <= i < Pos(ids, x) - 1 :: Before(cmp, keys[ids[i]], keys[x])
  }

  /** Every level runs in the order of level 0; and a node that is being linked further up is the first of its
      equals there. */
  ghost predicate Ordered<K>(cmp: Comparator<K>, s: State<K>) {
    && |s.levels| == MAX_HEIGHT
    && (forall l | 0 <= l < MAX_HEIGHT :: InOrder(s.levels[l], s.levels[0]))
    && match s.writer
       case Linking(x, _, level) => level > 0 ==> FirstOfEquals(cmp, s.keys, s.levels[0], x)
       case Publishing(x, _, level) => level > 0 ==> FirstOfEquals(cmp, s.keys, s.levels[0], x)
       case _ => true
  }

  // ---- Every step keeps the order ----

  lemma OrderedWithSelf(ids: seq<Id>)
    requires Distinct(ids)
    ensures InOrder(ids, ids)
  {
    forall i | 0 <= i < |ids| ensures Pos(ids, ids[i]) == i + 1 {
      PosAt(ids, i);
    }
  }

  lemma OrderedBelowInsert(upper: seq<Id>, ids: seq<Id>, n: nat, x: Id)
    requires InOrder(upper, ids) && n <= |ids| && Distinct(InsertAt(ids, n, x)) && Distinct(ids)
    ensures InOrder(upper, InsertAt(ids, n, x))
  {
    hide InsertAt, Distinct;
    forall i | 0 <= i < |upper|
      ensures Pos(InsertAt(ids, n, x), upper[i])
           == if Pos(ids, upper[i]) <= n then Pos(ids, upper[i]) else Pos(ids, upper[i]) + 1
    {
      assert ids[Pos(ids, upper[i]) - 1] == upper[i];
      PosAfterInsert(ids, n, x, upper[i]);
    }
  }

  /** Nodes with a smaller key stand further in front. */
  lemma SmallerIsInFront<K(!new)>(cmp: Comparator<K>, keys: seq<K>, ids: seq<Id>, y: Id, x: Id)
    requires IdsFit(ids, |keys|) && Sorted(cmp, KeysIn(keys, ids)) && Pos(ids, y) > 0 && Pos(ids, x) > 0
    requires y < |keys| && x < |keys| && y != x && Before(cmp, keys[y], keys[x])
    ensures Pos(ids, y) < Pos(ids, x)
  {
    hide *;
    PlacesDiffer(ids, x, y);
    if Pos(ids, x) < Pos(ids, y) { SortedPlaces(cmp, keys, ids, Pos(ids, x) - 1, Pos(ids, y) - 1); }
  }

  lemma PlacesDiffer(ids: seq<Id>, x: Id, y: Id)
    requires x != y && Pos(ids, x) > 0 && Pos(ids, y) > 0
    ensures Pos(ids, x) != Pos(ids, y)
  {
    hide Pos;
  }

  lemma SortedPlaces<K(!new)>(cmp: Comparator<K>, keys: seq<K>, ids: seq<Id>, p: nat, q: nat)
    requires IdsFit(ids, |keys|) && Sorted(cmp, KeysIn(keys, ids)) && p < q < |ids|
    ensures !Before(cmp, keys[ids[q]], keys[ids[p]])
  {
    assert !Before(cmp, KeysIn(keys, ids)[q], KeysIn(keys, ids)[p]);
  }

  /** A node inserted into a level at its lower bound is there in the order of level 0. */
  lemma OrderedWithInserted<K(!new)>(cmp: Comparator<K>, keys: seq<K>, ids: seq<Id>, lower: seq<Id>, n: nat, x: Id)
    requires TotalPreorder(cmp) && IdsFit(ids, |keys|) && Sorted(cmp, KeysIn(keys, ids)) && x !in ids
    requires InOrder(ids, lower) && FirstOfEquals(cmp, keys, lower, x)
    requires Sorted(cmp, KeysIn(keys, lower))
    requires n == LowerBound(cmp, KeysIn(keys, ids), keys[x])
    ensures InOrder(InsertAt(ids, n, x), lower)
  {
    LowerBoundSplits(cmp, KeysIn(keys, ids), keys[x]);
    forall i | 0 <= i < |ids|
      ensures if i < n then Pos(lower, ids[i]) < Pos(lower, x) else Pos(lower, x) < Pos(lower, ids[i])
    {
      assert KeysIn(keys, ids)[i] == keys[ids[i]];
      if i < n {
        SmallerIsInFront(cmp, keys, lower, ids[i], x);
      } else {
        NotSmallerIsBehind(cmp, keys, lower, x, ids[i]);
      }
    }
    InsertedInOrder(ids, lower, n, x);
  }

  lemma NotSmallerIsBehind<K(!new)>(cmp: Comparator<K>, keys: seq<K>, ids: seq<Id>, x: Id, z: Id)
    requires FirstOfEquals(cmp, keys, ids, x) && Pos(ids, z) > 0 && z != x && z < |keys|
    requires !Before(cmp, keys[z], keys[x])
    ensures Pos(ids, x) < Pos(ids, z)
  {
    var p := Pos(ids, z) - 1;
    assert ids[p] == z;
  }

  lemma InsertedInOrder(ids: seq<Id>, lower: seq<Id>, n: nat, x: Id)
    requires InOrder(ids, lower) && n <= |ids| && Pos(lower, x) > 0
    requires forall i | 0 <= i < |ids| ::
      if i < n then Pos(lower, ids[i]) < Pos(lower, x) else Pos(lower, x) < Pos(lower, ids[i])
    ensures InOrder(InsertAt(ids, n, x), lower)
  {
    hide InsertAt, Pos;
    var after := InsertAt(ids, n, x);
    forall i | 0 <= i < |after| ensures Pos(lower, after[i]) > 0 {
      InsertedAt(ids, n, x, i);
    }
    forall i, j | 0 <= i < j < |after| ensures Pos(lower, after[i]) < Pos(lower, after[j]) {
      InsertedAt(ids, n, x, i);
      InsertedAt(ids, n, x, j);
    }
  }

  lemma InitialOrdered<K(!new)>(cmp: Comparator<K>, zero: K, readers: nat)
    ensures Ordered(cmp, Initial(zero, readers))
  {
  }

  /** What a publication makes of its level. */
  lemma PublishedAtBound<K(!new)>(cmp: Comparator<K>, s: State<K>)
    requires TotalPreorder(cmp) && Inv(cmp, s) && s.writer.Publishing?
    ensures var x, prev, level := s.writer.x, s.writer.prev, s.writer.level;
      && level < MAX_HEIGHT == |s.levels| && x < |s.keys| && IdsFit(s.levels[level], |s.keys|) && x !in s.levels[level]
      && var n := LowerBound(cmp, KeysIn(s.keys, s.levels[level]), s.keys[x]);
      && WriteStep(cmp, s).levels == s.levels[level := InsertAt(s.levels[level], n, x)]
      && (WriteStep(cmp, s).writer.Idle?
          || (WriteStep(cmp, s).writer.Linking? && WriteStep(cmp, s).writer.x == x
              && WriteStep(cmp, s).writer.level == level + 1))
  {
    var x, prev, level := s.writer.x, s.writer.prev, s.writer.level;
    var ids := s.levels[level];
    assert LevelOK(cmp, s.keys, s.next, ids, level);
    assert IsPrev(cmp, s.keys, ids, prev[level], s.keys[x]);
    assert HEAD !in ids;
    hide Chained, Sorted, LowerBound, Distinct;
    PublishedInserts(ids, LowerBound(cmp, KeysIn(s.keys, ids), s.keys[x]), x);
  }

  lemma PublishingKeepsOrder<K(!new)>(cmp: Comparator<K>, s: State<K>)
    requires TotalPreorder(cmp) && Inv(cmp, s) && Ordered(cmp, s) && s.writer.Publishing?
    ensures Ordered(cmp, WriteStep(cmp, s))
  {
    hide *;
    PublishedAtBound(cmp, s);
    var s', x, level := WriteStep(cmp, s), s.writer.x, s.writer.level;
    var ids, base := s.levels[level], s.levels[0];
    var n := LowerBound(cmp, KeysIn(s.keys, ids), s.keys[x]);
    KeysStay(cmp, s);
    LevelParts(cmp, s, level);
    LevelParts(cmp, s, 0);
    OrderParts(cmp, s);
    if level == 0 {
      DistinctAfterInsert(ids, n, x);
      forall l | 0 <= l < MAX_HEIGHT ensures InOrder(s'.levels[l], s'.levels[0]) {
        if l == 0 { OrderedWithSelf(s'.levels[0]); } else { OrderedBelowInsert(s.levels[l], base, n, x); }
      }
      FirstAfterInsert(cmp, s.keys, ids, n, x);
    } else {
      OrderedWithInserted(cmp, s.keys, ids, base, n, x);
      forall l | 0 <= l < MAX_HEIGHT ensures InOrder(s'.levels[l], s'.levels[0]) {
        if l == level { assert s'.levels[l] == InsertAt(ids, n, x); } else { assert s'.levels[l] == s.levels[l]; }
      }
    }
    OrderedFrom(cmp, s');
  }

  lemma OrderParts<K(!new)>(cmp: Comparator<K>, s: State<K>)
    requires Ordered(cmp, s)
    ensures |s.levels| == MAX_HEIGHT && forall l | 0 <= l < MAX_HEIGHT :: InOrder(s.levels[l], s.levels[0])
    ensures s.writer.Publishing? && s.writer.level > 0 ==> FirstOfEquals(cmp, s.keys, s.levels[0], s.writer.x)
  {
    hide InOrder, FirstOfEquals;
  }

  lemma OrderedFrom<K(!new)>(cmp: Comparator<K>, s: State<K>)
    requires |s.levels| == MAX_HEIGHT && forall l | 0 <= l < MAX_HEIGHT :: InOrder(s.levels[l], s.levels[0])
    requires s.writer.Idle? || (s.writer.Linking? && FirstOfEquals(cmp, s.keys, s.levels[0], s.writer.x))
    ensures Ordered(cmp, s)
  {
    hide InOrder, FirstOfEquals;
  }

  lemma LevelParts<K(!new)>(cmp: Comparator<K>, s: State<K>, l: nat)
    requires Inv(cmp, s) && l < MAX_HEIGHT
    ensures |s.levels| == MAX_HEIGHT && IdsFit(s.levels[l], |s.keys|) && Distinct(s.levels[l])
    ensures Sorted(cmp, KeysIn(s.keys, s.levels[l])) && Chained(s.next, s.levels[l], l) && HEAD !in s.levels[l]
    ensures s.writer.Publishing? ==> 1 <= s.writer.x < |s.keys|
  {
    assert LevelOK(cmp, s.keys, s.next, s.levels[l], l);
    hide Sorted, Chained, Distinct;
  }

  lemma KeysStay<K(!new)>(cmp: Comparator<K>, s: State<K>)
    requires s.writer.Publishing?
    ensures WriteStep(cmp, s).keys == s.keys
  {
  }

  lemma FirstAfterInsert<K(!new)>(cmp: Comparator<K>, keys: seq<K>, ids: seq<Id>, n: nat, x: Id)
    requires IdsFit(ids, |keys|) && 1 <= x < |keys| && n == LowerBound(cmp, KeysIn(keys, ids), keys[x])
    requires Distinct(InsertAt(ids, n, x))
    ensures FirstOfEquals(cmp, keys, InsertAt(ids, n, x), x)
  {
    hide InsertAt, Distinct;
    var after := InsertAt(ids, n, x);
    InsertedAt(ids, n, x, n);
    PosAt(after, n);
    forall i | 0 <= i < |after| ensures 1 <= after[i] < |keys| && (i < n ==> after[i] == ids[i]) {
      InsertedAt(ids, n, x, i);
    }
    forall i | 0 <= i < n ensures Before(cmp, keys[after[i]], keys[x]) {
      assert KeysIn(keys, ids)[i] == keys[ids[i]];
    }
  }

  lemma OtherWritesKeepOrder<K(!new)>(cmp: Comparator<K>, s: State<K>)
    requires Ordered(cmp, s) && !s.writer.Publishing?
    ensures Ordered(cmp, WriteStep(cmp, s))
    ensures WriteStep(cmp, s).levels == s.levels && WriteStep(cmp, s).readers == s.readers
  {
    hide InOrder, FirstOfEquals, GetSlot, SetSlot, GoesOn;
    match s.writer
    case Idle =>
    case Locating(_, _, _, _, _) =>
    case Located(_, _, _) =>
    case Linking(_, _, _) =>
    case Stuck =>
  }

  lemma StepKeepsOrder<K(!new)>(cmp: Comparator<K>, s: State<K>, a: Action<K>)
    requires TotalPreorder(cmp) && Inv(cmp, s) && Ordered(cmp, s)
    ensures Ordered(cmp, Step(cmp, s, a))
  {
    hide InOrder, FirstOfEquals, Inv, TotalPreorder, GetSlot, SetSlot, ReadStep, WriteStep;
    if a.Write? {
      if s.writer.Publishing? {
        PublishingKeepsOrder(cmp, s);
      } else {
        OtherWritesKeepOrder(cmp, s);
      }
    }
  }

  lemma {:induction false} RunKeepsOrder<K(!new)>(cmp: Comparator<K>, s: State<K>, actions: seq<Action<K>>)
    requires TotalPreorder(cmp) && Inv(cmp, s) && Ordered(cmp, s)
    ensures Inv(cmp, Run(cmp, s, actions)) && Ordered(cmp, Run(cmp, s, actions))
  {
    hide Inv, Ordered, TotalPreorder, Step;
    RunKeepsInv(cmp, s, actions);
    if actions != [] {
      var init := actions[..|actions| - 1];
      RunKeepsOrder(cmp, s, init);
      StepKeepsOrder(cmp, Run(cmp, s, init), actions[|actions| - 1]);
    }
  }

  // ---- How many reads are left ----

  predicate Busy<K>(s: State<K>, r: nat) {
    r < |s.readers| && (s.readers[r].Starting? || s.readers[r].Searching?)
  }

  /** The reads that a search can still need, if nothing more is published: one for each level that it has to go
      down, and one for each node of the level-0 list that it has not passed. */
  function Work<K>(s: State<K>, r: nat): nat
    requires |s.levels| > 0
  {
    if !Busy(s, r) then 0
    else if s.readers[r].Starting? then 1 + MAX_HEIGHT + |s.levels[0]|
    else s.readers[r].level + 1 + |s.levels[0]| - Pos(s.levels[0], s.readers[r].at)
  }

  predicate Publishes<K>(s: State<K>, a: Action<K>) {
    a.Write? && s.writer.Publishing? && s.writer.level == 0
  }

  /** A read brings a search nearer to its end. */
  lemma ReadMakesProgress<K(!new)>(cmp: Comparator<K>, s: State<K>, r: nat)
    requires TotalPreorder(cmp) && Inv(cmp, s) && Ordered(cmp, s) && Busy(s, r)
    ensures |Step(cmp, s, Read(r)).levels| > 0 && Work(Step(cmp, s, Read(r)), r) < Work(s, r)
  {
    hide Inv, Ordered, TotalPreorder, ReadStep, Pos;
    LevelsExist(cmp, s);
    ReadMoves(cmp, s, s.readers[r]);
  }

  /** One read: the search begins, goes on to a node further behind, goes down, or is over. */
  lemma ReadMoves<K(!new)>(cmp: Comparator<K>, s: State<K>, reader: Reader<K>)
    requires TotalPreorder(cmp) && Inv(cmp, s) && Ordered(cmp, s) && reader in s.readers
    ensures |s.levels| > 0 && s.maxHeight <= MAX_HEIGHT
    ensures reader.Starting? ==> ReadStep(cmp, s, reader) == Searching(reader.goal, HEAD, s.maxHeight - 1)
    ensures reader.Searching? ==>
      var after := ReadStep(cmp, s, reader);
      || after.Done?
      || (after.Searching? && after.level + 1 == reader.level && after.at == reader.at)
      || (after.Searching? && after.level == reader.level && Pos(s.levels[0], reader.at) < Pos(s.levels[0], after.at))
  {
    hide *;
    LevelsExist(cmp, s);
    ReaderParts(cmp, s, reader);
    ReadStepIs(cmp, s, reader);
    OrderParts(cmp, s);
    if reader.Searching? {
      LevelParts(cmp, s, reader.level);
      LevelParts(cmp, s, 0);
      NextIsFurther(s.next, s.levels[reader.level], s.levels[0], reader.level, reader.at);
    }
  }

  lemma ReadStepIs<K(!new)>(cmp: Comparator<K>, s: State<K>, reader: Reader<K>)
    ensures reader.Starting? && s.maxHeight > 0 ==>
      ReadStep(cmp, s, reader) == Searching(reader.goal, HEAD, s.maxHeight - 1)
    ensures reader.Searching? ==>
      var slot, after := GetSlot(s.next, reader.at, reader.level), ReadStep(cmp, s, reader);
      slot.To? ==>
        || after.Done?
        || (reader.level > 0 && after == Searching(reader.goal, reader.at, reader.level - 1))
        || (slot.node.Some? && after == Searching(reader.goal, slot.node.value, reader.level))
  {
    hide GetSlot, InFront;
  }

  lemma ReaderParts<K(!new)>(cmp: Comparator<K>, s: State<K>, reader: Reader<K>)
    requires Inv(cmp, s) && reader in s.readers
    ensures |s.levels| == MAX_HEIGHT && 1 <= s.maxHeight <= MAX_HEIGHT
    ensures reader.Searching? ==>
      reader.level < s.maxHeight && (reader.at == HEAD || reader.at in s.levels[reader.level])
  {
    assert ReaderOK(cmp, s, reader);
    hide LevelOK, Nested, WriterOK;
  }

  /** The slot of a node leads to a node that stands further behind in level 0. */
  lemma NextIsFurther(next: seq<seq<Slot>>, ids: seq<Id>, base: seq<Id>, l: nat, at: Id)
    requires Chained(next, ids, l) && InOrder(ids, base) && (at == HEAD || at in ids) && HEAD !in base
    ensures var slot := GetSlot(next, at, l);
      slot.To? && (slot.node.Some? ==> Pos(base, at) < Pos(base, slot.node.value))
  {
    var i := PositionOf(ids, at);
    assert GetSlot(next, NodeBefore(ids, i), l) == To(IdAt(ids, i));
    PosAbsent(base, HEAD);
  }

  /** A publication sets it back by at most one read. */
  lemma WriteSetsBackByOne<K(!new)>(cmp: Comparator<K>, s: State<K>, r: nat)
    requires TotalPreorder(cmp) && Inv(cmp, s) && Ordered(cmp, s) && Busy(s, r)
    ensures var s' := WriteStep(cmp, s);
      && |s'.levels| > 0 && s'.readers == s.readers
      && Work(s', r) <= Work(s, r) + (if Publishes(s, Write) then 1 else 0)
  {
    hide *;
    LevelsExist(cmp, s);
    ReaderOf(s, r);
    if s.writer.Publishing? {
      var reader, base := s.readers[r], s.levels[0];
      PublishedAtBound(cmp, s);
      ReadersStay(cmp, s);
      LevelParts(cmp, s, 0);
      ReaderParts(cmp, s, reader);
      OrderParts(cmp, s);
      if s.writer.level == 0 && reader.Searching? {
        var n := LowerBound(cmp, KeysIn(s.keys, base), s.keys[s.writer.x]);
        DistinctAfterInsert(base, n, s.writer.x);
        PosGrows(s.levels, base, reader.level, n, s.writer.x, reader.at);
        InsertedLength(base, n, s.writer.x);
      } else if s.writer.level == 0 {
        InsertedLength(base, LowerBound(cmp, KeysIn(s.keys, base), s.keys[s.writer.x]), s.writer.x);
      }
    } else {
      OtherWritesKeepOrder(cmp, s);
    }
    WorkMoves(s, WriteStep(cmp, s), r, if Publishes(s, Write) then 1 else 0);
  }

  lemma ReaderOf<K(!new)>(s: State<K>, r: nat)
    requires Busy(s, r)
    ensures r < |s.readers| && (s.readers[r].Starting? || s.readers[r].Searching?)
    ensures Publishes(s, Write) <==> s.writer.Publishing? && s.writer.level == 0
  {
  }

  lemma InsertedLength(ids: seq<Id>, n: nat, x: Id)
    requires n <= |ids|
    ensures |InsertAt(ids, n, x)| == |ids| + 1
  {
  }

  lemma WorkMoves<K(!new)>(s: State<K>, s': State<K>, r: nat, more: nat)
    requires |s.levels| > 0 && |s'.levels| > 0 && Busy(s, r) && s'.readers == s.readers
    requires |s'.levels[0]| <= |s.levels[0]| + more
    requires s.readers[r].Searching? ==> Pos(s.levels[0], s.readers[r].at) <= Pos(s'.levels[0], s.readers[r].at)
    ensures Work(s', r) <= Work(s, r) + more
  {
    hide Pos;
  }

  lemma ReadersStay<K(!new)>(cmp: Comparator<K>, s: State<K>)
    requires s.writer.Publishing?
    ensures WriteStep(cmp, s).readers == s.readers
  {
  }

  lemma PosGrows(levels: seq<seq<Id>>, base: seq<Id>, level: nat, n: nat, x: Id, at: Id)
    requires level < |levels| && InOrder(levels[level], base) && (at == HEAD || at in levels[level])
    requires n <= |base| && Distinct(base) && Distinct(InsertAt(base, n, x)) && HEAD !in base
    ensures Pos(base, at) <= Pos(InsertAt(base, n, x), at)
  {
    hide InsertAt, Distinct;
    if at == HEAD {
      PosAbsent(base, HEAD);
    } else {
      var i :| 0 <= i < |levels[level]| && levels[level][i] == at;
      assert base[Pos(base, at) - 1] == at;
      PosAfterInsert(base, n, x, at);
    }
  }

  lemma StepMakesProgress<K(!new)>(cmp: Comparator<K>, s: State<K>, a: Action<K>, r: nat)
    requires TotalPreorder(cmp) && Inv(cmp, s) && Ordered(cmp, s) && Busy(s, r)
    ensures var s' := Step(cmp, s, a);
      && |s.levels| > 0 && |s'.levels| > 0
      && Work(s', r) + (if a == Read(r) then 1 else 0) <= Work(s, r) + (if Publishes(s, a) then 1 else 0)
  {
    hide Inv, Ordered, TotalPreorder, ReadStep, WriteStep, Pos;
    LevelsExist(cmp, s);
    if a == Action<K>.Read(r) {
      ReadMakesProgress(cmp, s, r);
    } else if a.Write? {
      WriteSetsBackByOne(cmp, s, r);
    }
  }

  // ---- Whole runs ----

  /** How often reader `r` reads in a run. */
  function ReadsBy<K(==)>(actions: seq<Action<K>>, r: nat): nat {
    if actions == [] then 0
    else ReadsBy(actions[..|actions| - 1], r) + (if actions[|actions| - 1] == Action<K>.Read(r) then 1 else 0)
  }

  /** How many keys are published in a run. */
  function Publications<K>(cmp: Comparator<K>, s: State<K>, actions: seq<Action<K>>): nat {
    if actions == [] then 0
    else
      Publications(cmp, s, actions[..|actions| - 1])
      + (if Publishes(Run(cmp, s, actions[..|actions| - 1]), actions[|actions| - 1]) then 1 else 0)
  }

  ghost predicate BusyThroughout<K>(cmp: Comparator<K>, s: State<K>, actions: seq<Action<K>>, r: nat) {
    && Busy(Run(cmp, s, actions), r)
    && (actions != [] ==> BusyThroughout(cmp, s, actions[..|actions| - 1], r))
  }

  lemma {:induction false} RunMakesProgress<K(!new)>(cmp: Comparator<K>, s: State<K>, actions: seq<Action<K>>, r: nat)
    requires TotalPreorder(cmp) && Inv(cmp, s) && Ordered(cmp, s) && BusyThroughout(cmp, s, actions, r)
    ensures |s.levels| > 0 && |Run(cmp, s, actions).levels| > 0
    ensures Work(Run(cmp, s, actions), r) + ReadsBy(actions, r) <= Work(s, r) + Publications(cmp, s, actions)
  {
    hide Inv, Ordered, TotalPreorder, Step, Work, Publishes, Busy;
    if actions == [] {
      LevelsExist(cmp, s);
    } else {
      var init := actions[..|actions| - 1];
      RunMakesProgress(cmp, s, init, r);
      RunKeepsOrder(cmp, s, init);
      assert BusyThroughout(cmp, s, init, r);
      StepMakesProgress(cmp, Run(cmp, s, init), actions[|actions| - 1], r);
    }
  }

  lemma LevelsExist<K(!new)>(cmp: Comparator<K>, s: State<K>)
    requires Inv(cmp, s)
    ensures |s.levels| == MAX_HEIGHT > 0
  {
  }

  lemma WorkBound<K(!new)>(cmp: Comparator<K>, s: State<K>, r: nat)
    requires Inv(cmp, s)
    ensures |s.levels| > 0 && Work(s, r) <= 1 + MAX_HEIGHT + |s.levels[0]|
  {
    if Busy(s, r) { assert ReaderOK(cmp, s, s.readers[r]); }
  }

  /** Every state that a run can reach is one from which searches end. */
  lemma RunsAreOrdered<K(!new)>(cmp: Comparator<K>, zero: K, readers: nat, actions: seq<Action<K>>)
    requires TotalPreorder(cmp)
    ensures var s := Run(cmp, Initial(zero, readers), actions); Inv(cmp, s) && Ordered(cmp, s)
  {
    InitialInv(cmp, zero, readers);
    InitialOrdered(cmp, zero, readers);
    RunKeepsOrder(cmp, Initial(zero, readers), actions);
  }

  /** A search is over after as many reads as there are levels to go down and nodes to pass, and one more for each
      key that is published meanwhile: no insertion can hold it up for longer. `before` is any run, `actions` one
      that goes on from there. */
  lemma SearchEnds<K(!new)>(cmp: Comparator<K>, zero: K, readers: nat, before: seq<Action<K>>,
                            actions: seq<Action<K>>, r: nat)
    requires TotalPreorder(cmp)
    ensures var s := Run(cmp, Initial(zero, readers), before);
      && |s.levels| > 0 && Work(s, r) <= 1 + MAX_HEIGHT + |s.levels[0]|
      && (BusyThroughout(cmp, s, actions, r) ==>
            ReadsBy(actions, r) < Work(s, r) + Publications(cmp, s, actions))
  {
    var s := Run(cmp, Initial(zero, readers), before);
    RunsAreOrdered(cmp, zero, readers, before);
    hide Inv, Ordered, TotalPreorder, Run;
    LevelsExist(cmp, s);
    WorkBound(cmp, s, r);
    if BusyThroughout(cmp, s, actions, r) {
      RunMakesProgress(cmp, s, actions, r);
      RunKeepsInv(cmp, s, actions);
      WorkIsPositive(cmp, Run(cmp, s, actions), r);
    }
  }

  // ---- A search is answered ----

  /** The next read of reader `r` is its last, and answers for the list as it then is. */
  ghost predicate AnswersNext<K>(cmp: Comparator<K>, s: State<K>, r: nat, goal: Goal<K>) {
    && AboutToFinish(cmp, s, r) && s.readers[r].goal == goal
    && |s.levels| > 0 && IdsFit(s.levels[0], |s.keys|)
    && Step(cmp, s, Read(r)).readers[r] == Done(goal, AnswerIn(cmp, s.keys, s.levels[0], goal))
  }

  /** One of the actions is that read. */
  ghost predicate Answered<K>(cmp: Comparator<K>, s: State<K>, actions: seq<Action<K>>, r: nat, goal: Goal<K>) {
    actions != [] &&
    (var init := actions[..|actions| - 1];
     || Answered(cmp, s, init, r, goal)
     || (actions[|actions| - 1] == Action<K>.Read(r) && AnswersNext(cmp, Run(cmp, s, init), r, goal)))
  }

  /** Reader `r` is searching for `goal`. */
  ghost predicate Seeks<K>(s: State<K>, r: nat, goal: Goal<K>) {
    Busy(s, r) && s.readers[r].goal == goal
  }

  lemma BusyStaysOrAnswers<K(!new)>(cmp: Comparator<K>, s: State<K>, a: Action<K>, r: nat, goal: Goal<K>)
    requires TotalPreorder(cmp) && Inv(cmp, s) && Ordered(cmp, s) && Seeks(s, r, goal)
    ensures Seeks(Step(cmp, s, a), r, goal) || (a == Read(r) && AnswersNext(cmp, s, r, goal))
  {
    hide Inv, Ordered, TotalPreorder, ReadStep, WriteStep, Pos, AnswerIn;
    if a == Action<K>.Read(r) {
      LevelsExist(cmp, s);
      ReadMoves(cmp, s, s.readers[r]);
      ReadStepKeepsGoal(cmp, s, s.readers[r]);
      if ReadStep(cmp, s, s.readers[r]).Done? { AnswerIsRight(cmp, s, r); }
    } else if a.Write? {
      LevelsExist(cmp, s);
      WriteSetsBackByOne(cmp, s, r);
    }
  }

  lemma ReadStepKeepsGoal<K(!new)>(cmp: Comparator<K>, s: State<K>, reader: Reader<K>)
    requires reader.Searching? || reader.Starting?
    ensures var after := ReadStep(cmp, s, reader); after.Searching? ==> after.goal == reader.goal
    ensures reader.Starting? ==> !ReadStep(cmp, s, reader).Done?
  {
    hide GetSlot, InFront;
  }

  lemma {:induction false} SoughtOrAnswered<K(!new)>(cmp: Comparator<K>, s: State<K>, actions: seq<Action<K>>, r: nat,
                                                     goal: Goal<K>)
    requires TotalPreorder(cmp) && Inv(cmp, s) && Ordered(cmp, s)
    requires r < |s.readers| && (s.readers[r].Resting? || s.readers[r].Done?)
    requires actions != [] && actions[0] == Find(r, goal)
    ensures |s.levels| > 0 && |Run(cmp, s, actions).levels| > 0
    ensures Answered(cmp, s, actions, r, goal)
      || (Seeks(Run(cmp, s, actions), r, goal)
          && Work(Run(cmp, s, actions), r) + ReadsBy(actions, r) <= 1 + 12 + |s.levels[0]| + Publications(cmp, s, actions))
    decreases |actions|
  {
    hide Inv, Ordered, TotalPreorder, Pos, AnswersNext;
    var init := actions[..|actions| - 1];
    LevelsExist(cmp, s);
    RunKeepsOrder(cmp, s, actions);
    LevelsExist(cmp, Run(cmp, s, actions));
    if |actions| == 1 {
      assert init == [];
    } else {
      hide Busy, Work, Publishes;
      SoughtOrAnswered(cmp, s, init, r, goal);
      RunKeepsOrder(cmp, s, init);
      if !Answered(cmp, s, init, r, goal) {
        BusyStaysOrAnswers(cmp, Run(cmp, s, init), actions[|actions| - 1], r, goal);
        StepMakesProgress(cmp, Run(cmp, s, init), actions[|actions| - 1], r);
      }
    }
  }

  /** Whatever has happened before, and whatever the writer and other readers do meanwhile: a search that is begun is
      answered after so many reads, for the level-0 list as it is at the last of them. */
  lemma SearchIsAnswered<K(!new)>(cmp: Comparator<K>, zero: K, readers: nat, before: seq<Action<K>>,
                                  actions: seq<Action<K>>, r: nat, goal: Goal<K>)
    requires TotalPreorder(cmp)
    requires var s := Run(cmp, Initial(zero, readers), before);
      r < |s.readers| && (s.readers[r].Resting? || s.readers[r].Done?)
    requires actions != [] && actions[0] == Find(r, goal)
    ensures var s := Run(cmp, Initial(zero, readers), before);
      && |s.levels| > 0
      && (ReadsBy(actions, r) >= 1 + 12 + |s.levels[0]| + Publications(cmp, s, actions) ==>
            Answered(cmp, s, actions, r, goal))
  {
    var s := Run(cmp, Initial(zero, readers), before);
    RunsAreOrdered(cmp, zero, readers, before);
    hide Inv, Ordered, TotalPreorder, Run, Pos;
    SoughtOrAnswered(cmp, s, actions, r, goal);
    RunKeepsInv(cmp, s, actions);
    var t := Run(cmp, s, actions);
    if Busy(t, r) { WorkIsPositive(cmp, t, r); }
  }

  lemma WorkIsPositive<K(!new)>(cmp: Comparator<K>, s: State<K>, r: nat)
    requires Inv(cmp, s) && Busy(s, r)
    ensures |s.levels| > 0 && Work(s, r) > 0
  {
    hide Inv, Pos;
    LevelsExist(cmp, s);
  }
}
