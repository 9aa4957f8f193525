/** db/skiplist.h: an insertion among concurrent searches comes to an end, and what it has then done. */
module SkipListInsertion {
  import opened Bytes
  import opened KeyOrder
  import opened Towers
  import opened SkipListRace
  import opened SkipListProgress

  /** The writer takes on a new insertion. */
  predicate Accepts<K>(s: State<K>, a: Action<K>) {
    a.Insert? && s.writer.Idle? && 1 <= a.height <= 12
  }

  /** No insertion is taken on after the first action. */
  ghost predicate Undisturbed<K>(cmp: Comparator<K>, s: State<K>, actions: seq<Action<K>>) {
    |actions| > 1 ==>
      var init := actions[..|actions| - 1];
      Undisturbed(cmp, s, init) && !Accepts(Run(cmp, s, init), actions[|actions| - 1])
  }

  /** How often the writer reads or stores in a run. */
  function Writes<K>(actions: seq<Action<K>>): nat {
    if actions == [] then 0
    else Writes(actions[..|actions| - 1]) + (if actions[|actions| - 1].Write? then 1 else 0)
  }

  // ---- How far an insertion is ----

  /** A level of `s` with a new node in its place. */
  function LevelWith<K>(cmp: Comparator<K>, s: State<K>, key: K, l: nat): seq<Id>
    requires l < |s.levels| && IdsFit(s.levels[l], |s.keys|)
  {
    InsertAt<Id>(s.levels[l], LowerBound(cmp, KeysIn(s.keys, s.levels[l]), key), |s.keys|)
  }

  /** The new node exists, has `height` slots, and is on the levels below `reached`. */
  ghost predicate Reaches<K>(cmp: Comparator<K>, s: State<K>, key: K, height: nat, t: State<K>, reached: nat) {
    && t.keys == s.keys + [key] && |t.next| == |t.keys| && |t.next[|s.keys|]| == height
    && t.maxHeight == (if height > s.maxHeight then height else s.maxHeight)
    && |s.levels| == |t.levels| == MAX_HEIGHT
    && forall l | 0 <= l < MAX_HEIGHT ::
         && IdsFit(s.levels[l], |s.keys|)
         && t.levels[l] == if l < reached then LevelWith(cmp, s, key, l) else s.levels[l]
  }

  /** Nothing has been stored yet. */
  ghost predicate Unchanged<K>(s: State<K>, t: State<K>) {
    t.keys == s.keys && t.next == s.next && t.maxHeight == s.maxHeight && t.levels == s.levels
  }

  /** `t` is a state on the way of the insertion that began in `s`, or behind its end. */
  ghost predicate Inserting<K>(cmp: Comparator<K>, s: State<K>, key: K, height: nat, t: State<K>) {
    match t.writer
    case Locating(k, h, _, _, _) => k == key && h == height && Unchanged(s, t)
    case Located(k, h, _) => k == key && h == height && Unchanged(s, t)
    case Linking(x, _, level) => x == |s.keys| && level < height && Reaches(cmp, s, key, height, t, level)
    case Publishing(x, _, level) => x == |s.keys| && level < height && Reaches(cmp, s, key, height, t, level)
    case Idle => Reaches(cmp, s, key, height, t, height)
    case Stuck => false
  }

  /** The node is on level 0. */
  predicate OnLevel0<K>(t: State<K>) {
    match t.writer
    case Linking(_, _, level) => level > 0
    case Publishing(_, _, level) => level > 0
    case Idle => true
    case _ => false
  }

  /** The reads and stores that are left: of the search, one for each level to go down and one for each node of
      level 0 not yet passed; one for `max_height_` and the node; and two for each level of the node. */
  function WorkLeft<K>(t: State<K>, height: nat): nat
    requires |t.levels| > 0
  {
    match t.writer
    case Locating(_, _, at, level, _) =>
      level + 1 + (|t.levels[0]| - Pos(t.levels[0], at)) + 1 + 2 * height
    case Located(_, _, _) => 1 + 2 * height
    case Linking(_, _, level) => if level < height then 2 * (height - level) else 0
    case Publishing(_, _, level) => if level < height then 2 * (height - level) - 1 else 0
    case _ => 0
  }

  // ---- Every step of the writer ----

  /** What the step is to show. */
  ghost predicate GoesForward<K>(cmp: Comparator<K>, s: State<K>, key: K, height: nat, t: State<K>) {
    var t' := WriteStep(cmp, t);
    && Inserting(cmp, s, key, height, t') && |t.levels| > 0 && |t'.levels| > 0
    && (!t'.writer.Idle? ==> WorkLeft(t', height) < WorkLeft(t, height))
    && (OnLevel0(t') <==> OnLevel0(t) || (t.writer.Publishing? && t.writer.level == 0))
  }

  lemma LocatingGoesForward<K(!new)>(cmp: Comparator<K>, s: State<K>, key: K, height: nat, t: State<K>)
    requires TotalPreorder(cmp) && Inv(cmp, t) && Ordered(cmp, t) && t.writer.Locating?
    requires Inserting(cmp, s, key, height, t)
    ensures GoesForward(cmp, s, key, height, t)
  {
    hide *;
    WriterParts(cmp, t);
    LevelParts(cmp, t, t.writer.level);
    LevelParts(cmp, t, 0);
    OrderParts(cmp, t);
    NextIsFurther(t.next, t.levels[t.writer.level], t.levels[0], t.writer.level, t.writer.at);
    LocatingStep(cmp, s, key, height, t);
  }

  lemma WriterParts<K(!new)>(cmp: Comparator<K>, t: State<K>)
    requires Inv(cmp, t) && t.writer.Locating?
    ensures |t.levels| == MAX_HEIGHT && t.writer.level < MAX_HEIGHT == |t.writer.prev|
    ensures t.writer.at == HEAD || t.writer.at in t.levels[t.writer.level]
  {
    hide LevelOK, Nested, ReaderOK, IsPrev;
  }

  lemma LocatingStep<K(!new)>(cmp: Comparator<K>, s: State<K>, key: K, height: nat, t: State<K>)
    requires t.writer.Locating? && Inserting(cmp, s, key, height, t)
    requires |t.levels| > 0 && t.writer.level < |t.writer.prev|
    requires var slot := GetSlot(t.next, t.writer.at, t.writer.level);
      slot.To? && (slot.node.Some? ==> Pos(t.levels[0], t.writer.at) < Pos(t.levels[0], slot.node.value))
    ensures GoesForward(cmp, s, key, height, t)
  {
    hide GetSlot, InFront, Pos, Reaches;
  }

  lemma LocatedGoesForward<K(!new)>(cmp: Comparator<K>, s: State<K>, key: K, height: nat, t: State<K>)
    requires Inv(cmp, s) && Inv(cmp, t) && t.writer.Located? && Inserting(cmp, s, key, height, t)
    ensures GoesForward(cmp, s, key, height, t)
  {
    hide Chained, Sorted, Distinct, IsPrev, Nested, ReaderOK;
    forall l | 0 <= l < MAX_HEIGHT ensures IdsFit(s.levels[l], |s.keys|) {
      assert LevelOK(cmp, s.keys, s.next, s.levels[l], l);
    }
  }

  lemma LinkingGoesForward<K(!new)>(cmp: Comparator<K>, s: State<K>, key: K, height: nat, t: State<K>)
    requires TotalPreorder(cmp) && Inv(cmp, t) && t.writer.Linking? && Inserting(cmp, s, key, height, t)
    ensures GoesForward(cmp, s, key, height, t)
  {
    hide *;
    NotStuck(cmp, t);
    LinkingStep(cmp, s, key, height, t);
  }

  lemma NotStuck<K(!new)>(cmp: Comparator<K>, t: State<K>)
    requires TotalPreorder(cmp) && Inv(cmp, t)
    ensures |t.levels| == MAX_HEIGHT > 0 && !WriteStep(cmp, t).writer.Stuck?
  {
    hide TotalPreorder, WriteStep, LevelOK, Nested, IsPrev, ReaderOK;
    WriteKeepsInv(cmp, t);
  }

  lemma LinkingStep<K(!new)>(cmp: Comparator<K>, s: State<K>, key: K, height: nat, t: State<K>)
    requires t.writer.Linking? && Inserting(cmp, s, key, height, t)
    requires |t.levels| > 0 && !WriteStep(cmp, t).writer.Stuck?
    ensures GoesForward(cmp, s, key, height, t)
  {
    hide GetSlot, SetSlot, LevelWith;
    var x, level := t.writer.x, t.writer.level;
    SetSlotSizes(t.next, x, level, GetSlot(t.next, t.writer.prev[level], level), x);
  }

  lemma PublishingGoesForward<K(!new)>(cmp: Comparator<K>, s: State<K>, key: K, height: nat, t: State<K>)
    requires TotalPreorder(cmp) && Inv(cmp, t) && t.writer.Publishing? && Inserting(cmp, s, key, height, t)
    ensures GoesForward(cmp, s, key, height, t)
  {
    hide *;
    NotStuck(cmp, t);
    PublishedAtBound(cmp, t);
    PlaceIsOld(cmp, s, key, height, t);
    PublishingStep(cmp, s, key, height, t);
  }

  /** The place of the node on a level does not depend on the node's own key. */
  lemma PlaceIsOld<K(!new)>(cmp: Comparator<K>, s: State<K>, key: K, height: nat, t: State<K>)
    requires t.writer.Publishing? && Inserting(cmp, s, key, height, t)
    requires t.writer.level < MAX_HEIGHT == |t.levels| && t.writer.x < |t.keys|
    requires IdsFit(t.levels[t.writer.level], |t.keys|)
    ensures var x, level := t.writer.x, t.writer.level;
      && |s.levels| == MAX_HEIGHT && IdsFit(s.levels[level], |s.keys|)
      && InsertAt<Id>(t.levels[level], LowerBound(cmp, KeysIn(t.keys, t.levels[level]), t.keys[x]), x)
         == LevelWith(cmp, s, key, level)
  {
    hide InsertAt, LowerBound, IdsFit;
    var x, level := t.writer.x, t.writer.level;
    assert t.keys[x] == key && t.levels[level] == s.levels[level];
    KeysInOld(s.keys, key, s.levels[level]);
    assert KeysIn(t.keys, t.levels[level]) == KeysIn(s.keys, s.levels[level]);
    LevelWithIs(cmp, s, key, level);
  }

  lemma LevelWithIs<K>(cmp: Comparator<K>, s: State<K>, key: K, l: nat)
    requires l < |s.levels| && IdsFit(s.levels[l], |s.keys|)
    ensures var n := LowerBound(cmp, KeysIn(s.keys, s.levels[l]), key);
      n <= |s.levels[l]| && LevelWith(cmp, s, key, l) == InsertAt<Id>(s.levels[l], n, |s.keys|)
  {
    hide LowerBound, InsertAt;
  }

  lemma KeysInOld<K>(keys: seq<K>, key: K, ids: seq<Id>)
    requires IdsFit(ids, |keys|)
    ensures IdsFit(ids, |keys + [key]|) && KeysIn(keys + [key], ids) == KeysIn(keys, ids)
  {
  }

  lemma PublishingStep<K(!new)>(cmp: Comparator<K>, s: State<K>, key: K, height: nat, t: State<K>)
    requires t.writer.Publishing? && Inserting(cmp, s, key, height, t)
    requires |t.levels| > 0 && !WriteStep(cmp, t).writer.Stuck? && t.writer.level < MAX_HEIGHT
    requires IdsFit(s.levels[t.writer.level], |s.keys|)
    requires WriteStep(cmp, t).levels == t.levels[t.writer.level := LevelWith(cmp, s, key, t.writer.level)]
    ensures GoesForward(cmp, s, key, height, t)
  {
    hide SetSlot, LevelWith, Published;
    var x, level := t.writer.x, t.writer.level;
    SetSlotSizes(t.next, t.writer.prev[level], level, To(Some(x)), x);
  }

  lemma WriteGoesForward<K(!new)>(cmp: Comparator<K>, s: State<K>, key: K, height: nat, t: State<K>)
    requires TotalPreorder(cmp) && Inv(cmp, s) && Inv(cmp, t) && Ordered(cmp, t)
    requires Inserting(cmp, s, key, height, t) && !t.writer.Idle?
    ensures GoesForward(cmp, s, key, height, t)
  {
    hide Inv, Ordered, TotalPreorder, GoesForward, Reaches, Unchanged;
    match t.writer
    case Locating(_, _, _, _, _) => LocatingGoesForward(cmp, s, key, height, t);
    case Located(_, _, _) => LocatedGoesForward(cmp, s, key, height, t);
    case Linking(_, _, _) => LinkingGoesForward(cmp, s, key, height, t);
    case Publishing(_, _, _) => PublishingGoesForward(cmp, s, key, height, t);
  }

  // ---- Whole runs ----

  /** Where an insertion stands after a run that began with it. */
  ghost predicate UnderWay<K>(cmp: Comparator<K>, s: State<K>, key: K, height: nat, actions: seq<Action<K>>) {
    var t := Run(cmp, s, actions);
    && |s.levels| > 0 && |t.levels| > 0 && Inserting(cmp, s, key, height, t)
    && (!t.writer.Idle? ==>
          WorkLeft(t, height) + Writes(actions) <= s.maxHeight + |s.levels[0]| + 1 + 2 * height)
    && Insertions(cmp, s, actions) == (if OnLevel0(t) then [key] else [])
  }

  lemma Begins<K(!new)>(cmp: Comparator<K>, s: State<K>, key: K, height: nat)
    requires Inv(cmp, s) && s.writer.Idle? && 1 <= height <= 12
    ensures UnderWay(cmp, s, key, height, [Insert(key, height)])
  {
    var actions := [Action.Insert(key, height)];
    assert actions[..0] == [];
    assert Run(cmp, s, []) == s && Run(cmp, s, actions) == Step(cmp, s, actions[0]);
    assert Writes(actions) == 0;
    assert Insertions(cmp, s, []) == [];
    assert Insertions(cmp, s, actions) == [];
    hide LevelOK, Nested, ReaderOK, Run, Insertions, Writes;
  }

  lemma {:induction false} StaysUnderWay<K(!new)>(cmp: Comparator<K>, s: State<K>, key: K, height: nat,
                                                  actions: seq<Action<K>>)
    requires TotalPreorder(cmp) && Inv(cmp, s) && Ordered(cmp, s) && s.writer.Idle? && 1 <= height <= 12
    requires actions != [] && actions[0] == Insert(key, height) && Undisturbed(cmp, s, actions)
    ensures UnderWay(cmp, s, key, height, actions)
  {
    hide Inv, Ordered, TotalPreorder, UnderWay, Run, Accepts;
    if |actions| == 1 {
      Begins(cmp, s, key, height);
      assert actions == [Insert(key, height)];
    } else {
      var init := actions[..|actions| - 1];
      StaysUnderWay(cmp, s, key, height, init);
      RunKeepsOrder(cmp, s, init);
      OneMoreStep(cmp, s, key, height, actions);
    }
  }

  lemma OneMoreStep<K(!new)>(cmp: Comparator<K>, s: State<K>, key: K, height: nat, actions: seq<Action<K>>)
    requires TotalPreorder(cmp) && Inv(cmp, s) && |actions| > 1
    requires var init := actions[..|actions| - 1]; var t := Run(cmp, s, init);
      Inv(cmp, t) && Ordered(cmp, t) && UnderWay(cmp, s, key, height, init) && !Accepts(t, actions[|actions| - 1])
    ensures UnderWay(cmp, s, key, height, actions)
  {
    hide Inv, Ordered, TotalPreorder, Inserting, GoesForward, WorkLeft, Step, OnLevel0;
    var init, a := actions[..|actions| - 1], actions[|actions| - 1];
    var t := Run(cmp, s, init);
    assert Run(cmp, s, actions) == Step(cmp, t, a);
    if a.Write? && !t.writer.Idle? {
      WriteGoesForward(cmp, s, key, height, t);
      Forward(cmp, s, key, height, t);
    } else {
      OtherStep(cmp, s, key, height, t, a);
    }
  }

  lemma Forward<K(!new)>(cmp: Comparator<K>, s: State<K>, key: K, height: nat, t: State<K>)
    requires GoesForward(cmp, s, key, height, t) && Inserting(cmp, s, key, height, t)
    ensures var t' := Step(cmp, t, Write);
      && Inserting(cmp, s, key, height, t') && |t.levels| > 0 && |t'.levels| > 0
      && (!t'.writer.Idle? ==> WorkLeft(t', height) < WorkLeft(t, height))
      && (OnLevel0(t') <==> OnLevel0(t) || (t.writer.Publishing? && t.writer.level == 0))
    ensures t.writer.Publishing? ==> t.writer.x < |t.keys| && t.keys[t.writer.x] == key && (t.writer.level == 0 ==> !OnLevel0(t))
  {
    hide WriteStep, WorkLeft, LevelWith, LowerBound;
  }

  /** Any other step leaves writer and memory alone. */
  lemma OtherStep<K(!new)>(cmp: Comparator<K>, s: State<K>, key: K, height: nat, t: State<K>, a: Action<K>)
    requires !a.Write? || t.writer.Idle?
    requires !Accepts(t, a) && |t.levels| > 0 && Inserting(cmp, s, key, height, t)
    ensures var t' := Step(cmp, t, a);
      && Inserting(cmp, s, key, height, t') && t'.writer == t.writer && |t'.levels| > 0
      && WorkLeft(t', height) == WorkLeft(t, height) && OnLevel0(t') == OnLevel0(t)
  {
    hide ReadStep, Pos, LevelWith;
  }

  /** What a finished insertion has done: the list has the key where a sequential one would put it, and the node is
      on exactly the levels below its height. */
  ghost predicate Finished<K>(cmp: Comparator<K>, s: State<K>, key: K, height: nat, t: State<K>) {
    && |s.levels| == |t.levels| == 12
    && t.keys == s.keys + [key] && |t.next| == |t.keys| && |t.next[|s.keys|]| == height
    && t.maxHeight == (if height > s.maxHeight then height else s.maxHeight)
    && IdsFit(s.levels[0], |s.keys|) && IdsFit(t.levels[0], |t.keys|)
    && KeysIn(t.keys, t.levels[0]) == InsertKey(cmp, KeysIn(s.keys, s.levels[0]), key)
    && (forall l, y: Id | 0 <= l < 12 :: y in t.levels[l] <==> y in s.levels[l] || (y == |s.keys| && l < height))
    && (forall l | 0 <= l < 12 :: |s.keys| !in s.levels[l])
  }

  lemma ReachesMeansFinished<K(!new)>(cmp: Comparator<K>, s: State<K>, key: K, height: nat, t: State<K>)
    requires Reaches(cmp, s, key, height, t, height) && 1 <= height && |s.keys| > 0
    ensures Finished(cmp, s, key, height, t)
  {
    hide LowerBound, InsertAt;
    var x, n := |s.keys|, LowerBound(cmp, KeysIn(s.keys, s.levels[0]), key);
    KeysInOld(s.keys, key, s.levels[0]);
    LevelWithIs(cmp, s, key, 0);
    assert t.levels[0] == LevelWith(cmp, s, key, 0);
    KeysAfterInsert(t.keys, s.levels[0], n, x);
    forall l, y: Id | 0 <= l < 12
      ensures y in t.levels[l] <==> y in s.levels[l] || (y == x && l < height)
    {
      assert IdsFit(s.levels[l], |s.keys|);
      if l < height {
        LevelWithIs(cmp, s, key, l);
        assert t.levels[l] == LevelWith(cmp, s, key, l);
        MembersAfterInsert(s.levels[l], LowerBound(cmp, KeysIn(s.keys, s.levels[l]), key), x, y);
      }
    }
  }

  lemma {:induction false} InsertionsAppend<K(!new)>(cmp: Comparator<K>, s: State<K>, a: seq<Action<K>>, b: seq<Action<K>>)
    ensures Run(cmp, s, a + b) == Run(cmp, Run(cmp, s, a), b)
    ensures Insertions(cmp, s, a + b) == Insertions(cmp, s, a) + Insertions(cmp, Run(cmp, s, a), b)
  {
    hide Step;
    if b == [] {
      assert a + b == a;
    } else {
      var init := b[..|b| - 1];
      InsertionsAppend(cmp, s, a, init);
      assert (a + b)[..|a + b| - 1] == a + init;
    }
  }

  /** Whatever has happened before, and whatever readers do meanwhile: an insertion that the writer takes on is over
      after as many reads and stores as there are levels to go down and nodes to pass, one, and two for each level of
      the new node. Then it has done what it is for, and is the one insertion that has happened since. */
  lemma InsertionIsCarriedOut<K(!new)>(cmp: Comparator<K>, zero: K, readers: nat, before: seq<Action<K>>, key: K,
                                       height: nat, actions: seq<Action<K>>)
    requires TotalPreorder(cmp) && 1 <= height <= 12
    requires Run(cmp, Initial(zero, readers), before).writer.Idle?
    requires actions != [] && actions[0] == Insert(key, height)
    requires Undisturbed(cmp, Run(cmp, Initial(zero, readers), before), actions)
    ensures var first := Initial(zero, readers);
      var s, t := Run(cmp, first, before), Run(cmp, first, before + actions);
      && |s.levels| > 0 && s.maxHeight <= 12
      && (Writes(actions) >= s.maxHeight + |s.levels[0]| + 1 + 2 * height ==> t.writer.Idle?)
      && (t.writer.Idle? ==>
            && Finished(cmp, s, key, height, t)
            && Insertions(cmp, first, before + actions) == Insertions(cmp, first, before) + [key])
  {
    hide *;
    var first := Initial(zero, readers);
    var s := Run(cmp, first, before);
    RunsAreOrdered(cmp, zero, readers, before);
    StaysUnderWay(cmp, s, key, height, actions);
    InsertionsAppend(cmp, first, before, actions);
    EndOfWay(cmp, s, key, height, actions);
    var t := Run(cmp, s, actions);
    if t.writer.Idle? { ReachesMeansFinished(cmp, s, key, height, t); }
  }

  lemma EndOfWay<K(!new)>(cmp: Comparator<K>, s: State<K>, key: K, height: nat, actions: seq<Action<K>>)
    requires Inv(cmp, s) && UnderWay(cmp, s, key, height, actions)
    ensures |s.levels| > 0 && |s.keys| > 0 && s.maxHeight <= 12
    ensures var t := Run(cmp, s, actions);
      && (t.writer.Idle? ==> Reaches(cmp, s, key, height, t, height) && Insertions(cmp, s, actions) == [key])
      && (Writes(actions) >= s.maxHeight + |s.levels[0]| + 1 + 2 * height ==> t.writer.Idle?)
  {
    hide Run, LevelOK, Nested, ReaderOK, Reaches, Insertions, Writes, Unchanged, Pos;
  }
}
