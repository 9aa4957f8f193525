/** db/skiplist.h: the linked towers in the heap, and the sorted sequence of keys that they stand for. */
module SkipList {
  import opened Bytes
  import opened KeyOrder
  import opened RandomNumbers
  import opened Towers

  const BRANCHING: nat := 4

  class Node<K(!new)> {
    const key: K
    var next: seq<Node?<K>>

    constructor (key: K, height: nat)
      ensures this.key == key && next == seq(height, _ => null)
    {
      this.key := key;
      next := seq(height, _ => null);
    }
  }

  ghost function NodeAt<K(!new)>(nodes: seq<Node<K>>, i: nat): Node?<K> {
    if i < |nodes| then nodes[i] else null
  }

  ghost function Heights<K(!new)>(nodes: seq<Node<K>>): (hs: seq<nat>)
    reads nodes
    ensures |hs| == |nodes|
  {
    seq(|nodes|, i requires 0 <= i < |nodes| reads nodes => |nodes[i].next|)
  }

  ghost function KeysOf<K(!new)>(nodes: seq<Node<K>>): (keys: seq<K>)
    ensures |keys| == |nodes|
  {
    seq(|nodes|, i requires 0 <= i < |nodes| => nodes[i].key)
  }

  /** Every slot of every tower points to the next tower that reaches that high. */
  ghost predicate Linked<K(!new)>(nodes: seq<Node<K>>)
    reads nodes
  {
    forall i, l | 0 <= i < |nodes| && 0 <= l < |nodes[i].next| ::
      nodes[i].next[l] == NodeAt(nodes, NextAbove(Heights(nodes), i + 1, l))
  }

  class SkipList<K(!new)> {
    const cmp: Comparator<K>
    const head: Node<K>
    var maxHeight: nat
    const rnd: Random
    ghost var nodes: seq<Node<K>> // the head, then the level-0 list

    ghost predicate Valid()
      reads this, rnd, nodes
    {
      TotalPreorder(cmp) && rnd.Valid() && ListValid()
    }

    ghost predicate ListValid()
      reads this, nodes
    {
      && |nodes| > 0 && nodes[0] == head && Distinct(nodes)
      && 1 <= maxHeight <= MAX_HEIGHT
      && |head.next| == MAX_HEIGHT
      && (forall i | 1 <= i < |nodes| :: 1 <= |nodes[i].next| <= maxHeight)
      && Linked(nodes)
      && Sorted(cmp, Keys())
    }

    /** The keys in the list, in order. */
    ghost function Keys(): seq<K>
      reads `nodes
      requires |nodes| > 0
    {
      KeysOf(nodes)[1..]
    }

    /** The index in `nodes` of the first node whose key is not before `key`. */
    ghost function Position(key: K): nat
      reads `nodes
      requires |nodes| > 0
    {
      1 + LowerBound(cmp, Keys(), key)
    }

    constructor (cmp: Comparator<K>, zero: K)
      requires TotalPreorder(cmp)
      ensures Valid() && Keys() == [] && this.cmp == cmp && maxHeight == 1 && |head.next| == 12
      ensures rnd.seed == 0x5ead_beef
      ensures fresh(nodes) && fresh(rnd)
    {
      this.cmp := cmp;
      var first := new Node(zero, MAX_HEIGHT);
      head := first;
      maxHeight := 1;
      rnd := new Random(0xdead_beef);
      nodes := [first];
    }

    predicate KeyIsAfterNode(key: K, node: Node?<K>)
      ensures KeyIsAfterNode(key, node) <==> node != null && Before(cmp, node.key, key)
    {
      node != null && cmp(node.key, key) < 0
    }

    lemma PositionSplits(key: K, i: nat)
      requires Valid() && 1 <= i < |nodes|
      ensures Before(cmp, nodes[i].key, key) <==> i < Position(key)
    {
      LowerBoundSplits(cmp, Keys(), key);
      assert nodes[i].key == Keys()[i - 1];
    }

    lemma Bounds()
      requires Valid()
      ensures |nodes| > 0 && head == nodes[0] && |head.next| == Heights(nodes)[0] == MAX_HEIGHT
      ensures 1 <= maxHeight <= MAX_HEIGHT
      ensures forall key :: 1 <= Position(key) <= |nodes|
    {
    }

    /** Where one link leads, seen from the sequence of nodes and a target key. */
    lemma Follow(i: nat, level: nat, key: K)
      requires Valid() && i < |nodes| && level < |nodes[i].next|
      ensures |nodes[i].next| == Heights(nodes)[i]
      ensures var q := NextAbove(Heights(nodes), i + 1, level);
        && i < q <= |nodes|
        && nodes[i].next[level] == NodeAt(nodes, q)
        && nodes[i].next[level] == (if q < |nodes| then nodes[q] else null)
        && (q < |nodes| ==> level < |nodes[q].next| && (Before(cmp, nodes[q].key, key) <==> q < Position(key)))
        && (level == 0 ==> q == i + 1)
    {
      var q := NextAbove(Heights(nodes), i + 1, level);
      if q < |nodes| { PositionSplits(key, q); }
      if level == 0 && i + 1 < |nodes| {
        assert Heights(nodes)[i + 1] > 0;
      }
    }

    method FindGreaterOrEqual(key: K, prev: array?<Node?<K>>) returns (node: Node?<K>)
      requires Valid()
      requires prev != null ==> prev.Length == MAX_HEIGHT
      modifies prev
      ensures Valid()
      ensures node == NodeAt(nodes, Position(key))
      ensures prev != null ==> PrevFound(prev[..], nodes, Heights(nodes), Position(key), 0, maxHeight)
    {
      hide *;
      Bounds();
      var x: Node<K> := head;
      var level := maxHeight - 1;
      ghost var hs, pos := Heights(nodes), Position(key);
      ghost var p: nat := 0;
      if prev != null { PrevFoundNone(prev[..], nodes, hs, pos, maxHeight); }
      while true
        invariant 0 <= level < maxHeight <= MAX_HEIGHT
        invariant p < pos <= |nodes| && x == nodes[p] && level < |x.next|
        invariant hs == Heights(nodes) && hs[0] == MAX_HEIGHT && pos == Position(key) && Valid()
        invariant prev != null ==> PrevFound(prev[..], nodes, hs, pos, level + 1, maxHeight)
        decreases level, |nodes| - p
      {
        var next := x.next[level];
        Follow(p, level, key);
        if KeyIsAfterNode(key, next) {
          p := NextAbove(hs, p + 1, level);
          x := next;
        } else {
          LastBelowIff(hs, pos, level, p);
          if prev != null {
            ghost var found := prev[..];
            prev[level] := x;
            PrevFoundBelow(found, nodes, hs, pos, level, maxHeight, x);
            assert prev[..] == found[level := x];
          }
          if level == 0 {
            return next;
          } else {
            level := level - 1;
          }
        }
      }
    }

    /** One level of the publishing loop: the new node takes over the link of its predecessor, and the
        predecessor then links to the new node. */
    static method LinkBehind(p: Node<K>, x: Node<K>, level: nat)
      requires x != p && level < |p.next| && level < |x.next|
      modifies p, x
      ensures x.next == old(x.next)[level := old(p.next[level])]
      ensures p.next == old(p.next)[level := x]
    {
      x.next := x.next[level := p.next[level]];
      p.next := p.next[level := x];
    }

    /** The publishing loop of `Insert`: level by level, from the bottom up. */
    method Splice(x: Node<K>, prev: array<Node?<K>>, ghost hs: seq<nat>, ghost slots: seq<seq<Node?<K>>>, ghost pos: nat)
      requires SlotsFit(nodes, hs, slots, pos) && |x.next| <= MAX_HEIGHT == prev.Length
      requires Distinct(nodes) && x !in nodes && NextsOf(nodes) == slots
      requires PrevFound(prev[..], nodes, hs, pos, 0, |x.next|)
      modifies nodes, x
      ensures |x.next| == old(|x.next|)
      ensures SplicedUpTo(NextsOf(nodes), x.next, hs, slots, pos, x, |x.next|)
    {
      hide *;
      var height := |x.next|;
      SplicedNowhere(nodes, x.next, hs, slots, pos, x);
      for i := 0 to height
        invariant |x.next| == height && SlotsFit(nodes, hs, slots, pos)
        invariant PrevFound(prev[..], nodes, hs, pos, 0, height)
        invariant SplicedUpTo(NextsOf(nodes), x.next, hs, slots, pos, x, i)
      {
        PrevFoundAt(prev[..], nodes, hs, pos, height, i);
        var p := prev[i];
        ghost var nexts, b := NextsOf(nodes), LastBelow(hs, pos, i);
        SlotBefore(nodes, x.next, hs, slots, pos, x, i);
        ghost var xNext := x.next;
        LinkBehind(p, x, i);
        NextsUpdated(nodes, nexts, b, nexts[b][i := x]);
        SplicedOneMore(nexts, xNext, hs, slots, pos, x, i);
      }
    }

    /** What is known of a list in front of an insertion, slot by slot: nothing here depends on the heap. */
    ghost predicate Snapshot(was: seq<Node<K>>, hs: seq<nat>, slots: seq<seq<Node?<K>>>, key: K, pos: nat, max: nat) {
      && |was| > 0 && was[0] == head && Distinct(was)
      && TotalPreorder(cmp) && Sorted(cmp, KeysOf(was)[1..])
      && SlotsFit(was, hs, slots, pos) && LinkedSlots(was, hs, slots)
      && (forall i | 1 <= i < |hs| :: 1 <= hs[i] <= max)
      && pos == 1 + LowerBound(cmp, KeysOf(was)[1..], key)
    }

    lemma SnapshotOfValid(key: K)
      requires Valid()
      ensures ListValid() && rnd.Valid() && Keys() == KeysOf(nodes)[1..]
      ensures Snapshot(nodes, Heights(nodes), NextsOf(nodes), key, Position(key), maxHeight)
    {
      assert LinkedSlots(nodes, Heights(nodes), NextsOf(nodes));
    }

    lemma SnapshotRaised(was: seq<Node<K>>, hs: seq<nat>, slots: seq<seq<Node?<K>>>, key: K, pos: nat, max: nat, higher: nat)
      requires Snapshot(was, hs, slots, key, pos, max) && max <= higher
      ensures Snapshot(was, hs, slots, key, pos, higher)
    {
    }

    lemma SnapshotParts(was: seq<Node<K>>, hs: seq<nat>, slots: seq<seq<Node?<K>>>, key: K, pos: nat, max: nat)
      requires Snapshot(was, hs, slots, key, pos, max)
      ensures |was| > 0 && SlotsFit(was, hs, slots, pos) && Distinct(was)
    {
    }

    /** At the levels that only the new node will reach, its predecessor is the head. */
    lemma HeadAbove(key: K, l: nat)
      requires ListValid() && maxHeight <= l < MAX_HEIGHT
      ensures Position(key) <= |nodes| && Heights(nodes)[0] == MAX_HEIGHT
      ensures LastBelow(Heights(nodes), Position(key), l) == 0 && nodes[0] == head
    {
    }

    /** At levels that the list has not reached yet, the predecessor is the head. */
    method FillPrev(key: K, prev: array<Node?<K>>, height: nat, ghost hs: seq<nat>, ghost pos: nat)
      requires ListValid() && maxHeight <= height <= MAX_HEIGHT == prev.Length
      requires hs == Heights(nodes) && pos == Position(key)
      requires PrevFound(prev[..], nodes, hs, pos, 0, maxHeight)
      modifies prev
      ensures PrevFound(prev[..], nodes, hs, pos, 0, height)
    {
      hide *;
      for i := maxHeight to height
        invariant PrevFound(prev[..], nodes, hs, pos, 0, i)
      {
        HeadAbove(key, i);
        ghost var found := prev[..];
        prev[i] := head;
        PrevFoundAbove(found, nodes, hs, pos, i, head);
        assert prev[..] == found[i := head];
      }
    }

    method Insert(key: K)
      requires Valid()
      modifies this, rnd, nodes
      ensures Valid()
      ensures var pos, height := old(Position(key)), HeightFrom(old(rnd.seed), 1).0;
        && 0 < pos < |nodes| && fresh(nodes[pos])
        && nodes[pos].key == key && |nodes[pos].next| == height
        && pos <= |old(nodes)| && nodes == InsertAt(old(nodes), pos, nodes[pos])
        && maxHeight == if height > old(maxHeight) then height else old(maxHeight)
      ensures Keys() == InsertKey(cmp, old(Keys()), key)
    {
      hide *;
      Bounds();
      SnapshotOfValid(key);
      var prev := new Node?<K>[MAX_HEIGHT];
      ghost var hs, slots, pos := Heights(nodes), NextsOf(nodes), Position(key);
      var x := FindGreaterOrEqual(key, prev);
      var height := RandomHeight();
      if height > maxHeight {
        FillPrev(key, prev, height, hs, pos);
        SnapshotRaised(nodes, hs, slots, key, pos, maxHeight, height);
        maxHeight := height;
      } else {
        PrevFoundFewer(prev[..], nodes, hs, pos, maxHeight, height);
      }
      var node := new Node(key, height);
      ghost var was := nodes;
      Publish(node, prev, hs, slots, pos);
      InsertedAt(was, pos, node, pos);
    }

    /** The last part of `Insert`: all links are changed, and the list is valid again. */
    method Publish(node: Node<K>, prev: array<Node?<K>>, ghost hs: seq<nat>, ghost slots: seq<seq<Node?<K>>>, ghost pos: nat)
      requires Snapshot(nodes, hs, slots, node.key, pos, maxHeight) && NextsOf(nodes) == slots
      requires rnd.Valid() && node !in nodes && 1 <= |node.next| <= maxHeight <= MAX_HEIGHT == prev.Length
      requires PrevFound(prev[..], nodes, hs, pos, 0, |node.next|)
      modifies `nodes, nodes, node
      ensures Valid()
      ensures |node.next| == old(|node.next|)
      ensures pos <= |old(nodes)| && nodes == InsertAt(old(nodes), pos, node)
      ensures |old(nodes)| > 0 && Keys() == InsertKey(cmp, KeysOf(old(nodes))[1..], node.key)
    {
      hide *;
      SnapshotParts(nodes, hs, slots, node.key, pos, maxHeight);
      Splice(node, prev, hs, slots, pos);
      ghost var was := nodes;
      nodes := InsertAt(was, pos, node);
      Inserted(was, node, hs, slots, pos);
    }

    /** The invariant after an insertion, from what was known of the list before it. */
    lemma Inserted(was: seq<Node<K>>, node: Node<K>, hs: seq<nat>, slots: seq<seq<Node?<K>>>, pos: nat)
      requires Snapshot(was, hs, slots, node.key, pos, maxHeight) && node !in was
      requires rnd.Valid() && 1 <= |node.next| <= maxHeight <= MAX_HEIGHT
      requires SplicedUpTo(NextsOf(was), node.next, hs, slots, pos, node, |node.next|)
      requires pos <= |was| && nodes == InsertAt(was, pos, node)
      ensures Valid()
      ensures |was| > 0 && Keys() == InsertKey(cmp, KeysOf(was)[1..], node.key)
    {
      InsertedKeys(cmp, was, node, pos);
      InsertKeySorted(cmp, KeysOf(was)[1..], node.key);
      SplicedIsLinked(was, hs, slots, pos, node);
      InsertedDistinct(was, node, pos);
      InsertedAt(was, pos, node, 0);
      SplicedHeights(was, hs, slots, pos, node);
      hide Linked, Distinct, Sorted, TotalPreorder, InsertAt, InsertKey, SplicedUpTo, LinkedSlots, KeysOf, NextsOf, Heights;
      forall i | 1 <= i < |nodes| ensures 1 <= |nodes[i].next| <= maxHeight {
        InsertedAt(was, pos, node, i);
      }
    }

    /** The pointers of one level, followed from the head, run through a list of nodes that ends in
        NULL: `towers` lists their indices, which increase. */
    lemma LevelIsChained(l: nat, k: nat)
      requires Valid() && l < MAX_HEIGHT
      ensures |head.next| == MAX_HEIGHT
      ensures var towers := Level(Heights(nodes), 1, l);
        && head.next[l] == NodeAt(nodes, if towers == [] then |nodes| else towers[0])
        && (k < |towers| ==>
              && towers[k] < |nodes| && l < |nodes[towers[k]].next|
              && nodes[towers[k]].next[l] == NodeAt(nodes, if k + 1 < |towers| then towers[k + 1] else |nodes|))
    {
      var hs := Heights(nodes);
      var towers := Level(hs, 1, l);
      if k < |towers| {
        LevelLinks(hs, 1, l, k);
        LevelMembers(hs, 1, l, towers[k]);
      }
    }

    /** Those nodes are exactly the ones that reach above the level; the order is that of level 0, of
        which each level is a subsequence. */
    lemma LevelHoldsTallNodes(l: nat, i: nat)
      requires Valid() && l < MAX_HEIGHT
      ensures i in Level(Heights(nodes), 1, l) <==> 1 <= i < |nodes| && |nodes[i].next| > l
      ensures Subsequence(Level(Heights(nodes), 1, l + 1), Level(Heights(nodes), 1, l))
      ensures Sorted(cmp, Keys())
    {
      LevelMembers(Heights(nodes), 1, l, i);
      LevelsThinOut(Heights(nodes), 1, l);
    }

    /** Levels that no node reaches are empty. */
    lemma UnusedLevelsEmpty(l: nat)
      requires Valid() && maxHeight <= l < MAX_HEIGHT
      ensures |head.next| == MAX_HEIGHT && head.next[l] == null
    {
      var q := NextAbove(Heights(nodes), 1, l);
    }

    predicate IsPast(key: K, node: Node?<K>)
      requires TotalPreorder(cmp)
      ensures IsPast(key, node) <==> node == null || !Before(cmp, node.key, key)
    {
      node == null || cmp(node.key, key) >= 0
    }

    method FindLessThan(key: K) returns (node: Node<K>)
      requires Valid()
      ensures Position(key) <= |nodes| && node == nodes[Position(key) - 1]
    {
      Bounds();
      assert TotalPreorder(cmp);
      hide *;
      var x: Node<K> := head;
      var level := maxHeight - 1;
      ghost var p: nat := 0;
      while true
        invariant 0 <= level < maxHeight
        invariant p < Position(key) <= |nodes| && x == nodes[p] && level < |x.next|
        decreases level, |nodes| - p
      {
        var next := x.next[level];
        Follow(p, level, key);
        if IsPast(key, next) {
          if level == 0 {
            return x;
          } else {
            level := level - 1;
          }
        } else {
          p := NextAbove(Heights(nodes), p + 1, level);
          x := next;
        }
      }
    }

    method FindLast() returns (node: Node<K>)
      requires Valid()
      ensures |nodes| > 0 && node == nodes[|nodes| - 1]
    {
      Bounds();
      hide *;
      var x: Node<K> := head;
      var level := maxHeight - 1;
      ghost var p: nat := 0;
      while true
        invariant 0 <= level < maxHeight
        invariant p < |nodes| && x == nodes[p] && level < |x.next|
        decreases level, |nodes| - p
      {
        var next := x.next[level];
        Follow(p, level, head.key);
        if next == null {
          if level == 0 {
            return x;
          } else {
            level := level - 1;
          }
        } else {
          p := NextAbove(Heights(nodes), p + 1, level);
          x := next;
        }
      }
    }

    method Contains(key: K) returns (found: bool)
      requires Valid()
      ensures found <==> exists k | k in Keys() :: cmp(key, k) == 0
    {
      var x := FindGreaterOrEqual(key, null);
      FoundIff(cmp, Keys(), key);
      found := x != null && cmp(key, x.key) == 0;
    }

    method RandomHeight() returns (height: nat)
      requires rnd.Valid()
      modifies rnd
      ensures rnd.Valid() && 1 <= height <= MAX_HEIGHT
      ensures (height, rnd.seed) == HeightFrom(old(rnd.seed), 1)
    {
      height := 1;
      var more := true;
      while height < MAX_HEIGHT && more
        invariant rnd.Valid() && 1 <= height <= MAX_HEIGHT
        invariant HeightFrom(old(rnd.seed), 1)
               == if more then HeightFrom(rnd.seed, height) else (height, rnd.seed)
        decreases more, MAX_HEIGHT - height
      {
        var r := rnd.Next();
        more := r % BRANCHING == 0;
        if more {
          height := height + 1;
        }
      }
    }
  }

  class Iterator<K(!new)> {
    const list: SkipList<K>
    var node: Node?<K>
    ghost var pos: nat // the index of `node` in the list, its length if `node` is NULL

    ghost predicate Placed()
      reads this, list, list.rnd, list.nodes
    {
      list.Valid() && 1 <= pos <= |list.nodes| && node == NodeAt(list.nodes, pos)
    }

    constructor (list: SkipList<K>)
      requires list.Valid()
      ensures this.list == list && Placed() && !Valid()
    {
      this.list := list;
      node := null;
      pos := |list.nodes|;
    }

    predicate Valid()
      reads this
    {
      node != null
    }

    method Key() returns (key: K)
      requires Placed() && Valid()
      ensures pos < |list.nodes| && key == list.Keys()[pos - 1]
    {
      key := node.key;
    }

    method Next()
      requires Placed() && Valid()
      modifies this
      ensures Placed() && pos == old(pos) + 1
    {
      hide Linked, Sorted, Distinct, TotalPreorder, LowerBound;
      list.Follow(pos, 0, node.key);
      node := node.next[0];
      pos := pos + 1;
    }

    method Prev()
      requires Placed() && Valid()
      modifies this
      ensures Placed()
      ensures var before := PrevPosition(list.cmp, old(list.Keys()), old(pos) - 1);
        pos == if before < 0 then |list.nodes| else before + 1
    {
      hide Linked, Sorted, TotalPreorder, LowerBound;
      var x := list.FindLessThan(node.key);
      pos := list.Position(node.key) - 1;
      node := x;
      if node == list.head {
        node := null;
        pos := |list.nodes|;
      }
    }

    method Seek(target: K)
      requires Placed()
      modifies this
      ensures Placed() && pos == list.Position(target)
    {
      node := list.FindGreaterOrEqual(target, null);
      pos := list.Position(target);
    }

    method SeekToFirst()
      requires Placed()
      modifies this
      ensures Placed() && pos == 1
    {
      hide Linked, Sorted, Distinct, TotalPreorder, LowerBound;
      list.Follow(0, 0, list.head.key);
      node := list.head.next[0];
      pos := 1;
    }

    method SeekToLast()
      requires Placed()
      modifies this
      ensures Placed()
      ensures pos == if list.Keys() == [] then |list.nodes| else |list.nodes| - 1
    {
      hide Linked, Sorted, TotalPreorder, LowerBound;
      node := list.FindLast();
      pos := |list.nodes| - 1;
      if node == list.head {
        node := null;
        pos := |list.nodes|;
      }
    }
  }

  /** The loop of test/skiplist_test.cpp: it visits every key, in order, and then stops. */
  method Traverse<K(!new)>(list: SkipList<K>) returns (keys: seq<K>)
    requires list.Valid()
    ensures keys == list.Keys()
  {
    hide Linked, Sorted, Distinct, TotalPreorder, LowerBound;
    keys := [];
    var it := new Iterator(list);
    it.SeekToFirst();
    while it.Valid()
      invariant it.list == list && it.Placed()
      invariant keys == list.Keys()[..it.pos - 1]
      decreases |list.nodes| - it.pos
    {
      var key := it.Key();
      keys := keys + [key];
      it.Next();
    }
  }

  /** One search through an iterator, as `MemTable::Get` makes it. */
  method SeekKey<K(!new)>(list: SkipList<K>, target: K) returns (found: Option<K>)
    requires list.Valid()
    ensures found == KeyAt(list.Keys(), LowerBound(list.cmp, list.Keys(), target))
  {
    hide *;
    var it := new Iterator(list);
    it.Seek(target);
    IteratorMeans(it);
    PositionMeans(list, target);
    if it.Valid() {
      var key := it.Key();
      found := Some(key);
    } else {
      found := None;
    }
  }

  lemma PositionMeans<K(!new)>(list: SkipList<K>, target: K)
    requires list.Valid()
    ensures var n := LowerBound(list.cmp, list.Keys(), target);
      && |list.nodes| == |list.Keys()| + 1 && list.Position(target) == n + 1
      && KeyAt(list.Keys(), n) == if n < |list.Keys()| then Some(list.Keys()[n]) else None
  {
    hide LowerBound;
  }

  /** The walk back, from `SeekToLast` by `Prev`: of each run of equal keys it visits the last one, from the last run
      to the first; if all keys differ, it is the exact reverse. */
  method TraverseBackward<K(!new)>(list: SkipList<K>) returns (keys: seq<K>, ghost visited: seq<nat>)
    requires list.Valid()
    ensures RunEndsBackward(list.cmp, list.Keys(), visited)
    ensures |keys| == |visited| && forall a | 0 <= a < |keys| :: visited[a] < |list.Keys()|
    ensures forall a | 0 <= a < |keys| :: keys[a] == list.Keys()[visited[a]]
    ensures StrictlySorted(list.cmp, list.Keys()) ==>
      |keys| == |list.Keys()| && forall a | 0 <= a < |keys| :: keys[a] == list.Keys()[|keys| - 1 - a]
  {
    hide *;
    ListMeans(list);
    keys := [];
    var it := new Iterator(list);
    it.SeekToLast();
    ghost var sorted := list.Keys();
    ghost var i := |sorted| - 1;
    IteratorMeans(it);
    while it.Valid()
      invariant it.list == list && it.Placed() && (it.Valid() <==> i >= 0)
      invariant -1 <= i < |sorted| && it.pos == (if i < 0 then |list.nodes| else i + 1)
      invariant keys + BackwardKeys(list.cmp, sorted, i) == BackwardKeys(list.cmp, sorted, |sorted| - 1)
      decreases i
    {
      var key := it.Key();
      BackwardKeysStep(list.cmp, sorted, i);
      keys := keys + [key];
      it.Prev();
      i := PrevPosition(list.cmp, sorted, i);
      IteratorMeans(it);
    }
    BackwardKeysEnd(list.cmp, sorted);
    assert keys + [] == keys;
    visited := BackwardPositions(list.cmp, sorted, |sorted| - 1);
    BackwardKeysAreAt(list.cmp, sorted, |sorted| - 1);
    BackwardWalk(list.cmp, sorted);
    WalkedBack(list.cmp, sorted, keys);
  }

  lemma ListMeans<K(!new)>(list: SkipList<K>)
    requires list.Valid()
    ensures TotalPreorder(list.cmp) && |list.nodes| == |list.Keys()| + 1 && Sorted(list.cmp, list.Keys())
  {
  }

  lemma IteratorMeans<K(!new)>(it: Iterator<K>)
    requires it.Placed()
    ensures 1 <= it.pos <= |it.list.nodes| && (it.Valid() <==> it.pos < |it.list.nodes|)
  {
  }

  lemma WalkedBack<K(!new)>(cmp: Comparator<K>, sorted: seq<K>, keys: seq<K>)
    requires TotalPreorder(cmp) && keys == BackwardKeys(cmp, sorted, |sorted| - 1)
    ensures StrictlySorted(cmp, sorted) ==>
      |keys| == |sorted| && forall a | 0 <= a < |keys| :: keys[a] == sorted[|keys| - 1 - a]
  {
    hide *;
    BackwardKeysAreAt(cmp, sorted, |sorted| - 1);
    if StrictlySorted(cmp, sorted) {
      BackwardIsReverse(cmp, sorted, |sorted| - 1);
    }
  }

  /** The height that `RandomHeight` draws from a seed once it has reached `height`, and the seed
      that it leaves behind. */
  function HeightFrom(seed: nat, height: nat): (nat, nat)
    requires height <= MAX_HEIGHT
    decreases MAX_HEIGHT - height
  {
    if height == MAX_HEIGHT then (height, seed)
    else if NextSeed(seed) % BRANCHING == 0 then HeightFrom(NextSeed(seed), height + 1)
    else (height, NextSeed(seed))
  }

  /** The `n`-th number that the generator draws after `seed`. */
  function Drawn(seed: nat, n: nat): nat {
    if n == 0 then seed else Drawn(seed, n - 1) * 16807 % 2147483647
  }

  /** A node is higher than `k` exactly if the first `k` numbers drawn are multiples of four; none is higher than 12. */
  lemma HeightIff(seed: nat, k: nat)
    requires 1 <= k
    ensures HeightFrom(seed, 1).0 > k <==> k < 12 && forall i | 1 <= i <= k :: Drawn(seed, i) % 4 == 0
  {
    HeightAfter(seed, 0, k);
  }

  lemma {:induction false} HeightAfter(seed: nat, n: nat, k: nat)
    requires n < 12 && k >= 1
    ensures HeightFrom(Drawn(seed, n), n + 1).0 >= n + 1
    ensures k > n ==>
      (HeightFrom(Drawn(seed, n), n + 1).0 > k <==> k < 12 && forall i | n < i <= k :: Drawn(seed, i) % 4 == 0)
    decreases 12 - n
  {
    hide Drawn;
    DrawnNext(seed, n);
    if n < 11 { HeightAfter(seed, n + 1, k); }
  }

  lemma DrawnNext(seed: nat, n: nat)
    ensures NextSeed(Drawn(seed, n)) == Drawn(seed, n + 1)
  {
  }

  /** From level `from` up to `to`, `prev` holds the last node before `pos` on each level. */
  ghost predicate PrevFound<K(!new)>(prev: seq<Node?<K>>, nodes: seq<Node<K>>, hs: seq<nat>, pos: nat, from: nat, to: nat) {
    && |hs| == |nodes| && 0 < pos <= |nodes| && hs[0] == MAX_HEIGHT && |prev| == MAX_HEIGHT && to <= MAX_HEIGHT
    && forall l | from <= l < to :: prev[l] == nodes[LastBelow(hs, pos, l)]
  }

  lemma PrevFoundNone<K(!new)>(prev: seq<Node?<K>>, nodes: seq<Node<K>>, hs: seq<nat>, pos: nat, n: nat)
    requires |hs| == |nodes| && 0 < pos <= |nodes| && hs[0] == MAX_HEIGHT && |prev| == MAX_HEIGHT && n <= MAX_HEIGHT
    ensures PrevFound(prev, nodes, hs, pos, n, n)
  {
  }

  lemma PrevFoundBelow<K(!new)>(prev: seq<Node?<K>>, nodes: seq<Node<K>>, hs: seq<nat>, pos: nat, l: nat, to: nat, x: Node<K>)
    requires PrevFound(prev, nodes, hs, pos, l + 1, to) && l < to
    requires x == nodes[LastBelow(hs, pos, l)]
    ensures l < |prev| && PrevFound(prev[l := x], nodes, hs, pos, l, to)
  {
  }

  lemma PrevFoundAbove<K(!new)>(prev: seq<Node?<K>>, nodes: seq<Node<K>>, hs: seq<nat>, pos: nat, l: nat, x: Node<K>)
    requires PrevFound(prev, nodes, hs, pos, 0, l) && l < MAX_HEIGHT
    requires x == nodes[LastBelow(hs, pos, l)]
    ensures l < |prev| && PrevFound(prev[l := x], nodes, hs, pos, 0, l + 1)
  {
  }

  lemma PrevFoundFewer<K(!new)>(prev: seq<Node?<K>>, nodes: seq<Node<K>>, hs: seq<nat>, pos: nat, to: nat, fewer: nat)
    requires PrevFound(prev, nodes, hs, pos, 0, to) && fewer <= to
    ensures PrevFound(prev, nodes, hs, pos, 0, fewer)
  {
  }

  lemma PrevFoundAt<K(!new)>(prev: seq<Node?<K>>, nodes: seq<Node<K>>, hs: seq<nat>, pos: nat, to: nat, l: nat)
    requires PrevFound(prev, nodes, hs, pos, 0, to) && l < to
    ensures |hs| == |nodes| && 0 < pos <= |nodes| && hs[0] == MAX_HEIGHT && l < |prev| == MAX_HEIGHT
    ensures prev[l] == nodes[LastBelow(hs, pos, l)]
  {
  }

  // ---- Inserting a node ----

  /** A list before an insertion, slot by slot. */
  ghost predicate LinkedSlots<K(!new)>(nodes: seq<Node<K>>, hs: seq<nat>, slots: seq<seq<Node?<K>>>) {
    && |slots| == |hs| == |nodes|
    && (forall i | 0 <= i < |nodes| :: |slots[i]| == hs[i])
    && forall i, l | 0 <= i < |nodes| && 0 <= l < hs[i] ::
         slots[i][l] == NodeAt(nodes, NextAbove(hs, i + 1, l))
  }

  ghost function NextsOf<K(!new)>(nodes: seq<Node<K>>): (nexts: seq<seq<Node?<K>>>)
    reads nodes
    ensures |nexts| == |nodes|
    ensures forall i | 0 <= i < |nodes| :: nexts[i] == nodes[i].next
  {
    seq(|nodes|, i requires 0 <= i < |nodes| reads nodes => nodes[i].next)
  }

  ghost predicate SlotsFit<K(!new)>(nodes: seq<Node<K>>, hs: seq<nat>, slots: seq<seq<Node?<K>>>, pos: nat)
    ensures SlotsFit(nodes, hs, slots, pos) ==>
      |slots| == |hs| == |nodes| && 0 < pos <= |nodes| && hs[0] == MAX_HEIGHT
  {
    && |slots| == |hs| == |nodes| && 0 < pos <= |nodes| && hs[0] == MAX_HEIGHT
    && forall i | 0 <= i < |hs| :: |slots[i]| == hs[i] <= MAX_HEIGHT
  }

  /** What publishing `x` in front of position `pos` at the levels below `n` makes of the slots of
      the old nodes, and of its own. */
  ghost predicate SplicedUpTo<K(!new)>(nexts: seq<seq<Node?<K>>>, xNext: seq<Node?<K>>,
                                       hs: seq<nat>, slots: seq<seq<Node?<K>>>, pos: nat, x: Node<K>, n: nat)
  {
    && |nexts| == |slots| == |hs| && 0 < pos <= |hs| && hs[0] == MAX_HEIGHT && n <= |xNext| <= MAX_HEIGHT
    && (forall i | 0 <= i < |hs| :: |nexts[i]| == |slots[i]| == hs[i])
    && (forall i, l {:trigger nexts[i][l]} | 0 <= i < |hs| && 0 <= l < hs[i] ::
          nexts[i][l] == if l < n && i == LastBelow(hs, pos, l) then x else slots[i][l])
    && (forall l | 0 <= l < n :: xNext[l] == slots[LastBelow(hs, pos, l)][l])
  }

  lemma SplicedNowhere<K(!new)>(nodes: seq<Node<K>>, xNext: seq<Node?<K>>,
                                hs: seq<nat>, slots: seq<seq<Node?<K>>>, pos: nat, x: Node<K>)
    requires SlotsFit(nodes, hs, slots, pos) && NextsOf(nodes) == slots && |xNext| <= MAX_HEIGHT
    ensures SplicedUpTo(NextsOf(nodes), xNext, hs, slots, pos, x, 0)
  {
    hide LastBelow;
  }

  lemma NextsUpdated<K(!new)>(nodes: seq<Node<K>>, nexts: seq<seq<Node?<K>>>, b: nat, updated: seq<Node?<K>>)
    requires |nexts| == |nodes| && b < |nodes| && nodes[b].next == updated
    requires forall i | 0 <= i < |nodes| && i != b :: nodes[i].next == nexts[i]
    ensures NextsOf(nodes) == nexts[b := updated]
  {
  }

  /** The slot that level `n` is about to take over. */
  lemma SlotBefore<K(!new)>(nodes: seq<Node<K>>, xNext: seq<Node?<K>>,
                            hs: seq<nat>, slots: seq<seq<Node?<K>>>, pos: nat, x: Node<K>, n: nat)
    requires SlotsFit(nodes, hs, slots, pos) && Distinct(nodes) && n < |xNext| <= MAX_HEIGHT
    requires SplicedUpTo(NextsOf(nodes), xNext, hs, slots, pos, x, n)
    ensures var b := LastBelow(hs, pos, n);
      && n < |nodes[b].next| == |slots[b]| && nodes[b].next[n] == slots[b][n]
      && forall i | 0 <= i < |nodes| && i != b :: nodes[i] != nodes[b]
  {
    hide LastBelow;
  }

  /** The two stores of one level. */
  lemma SplicedOneMore<K(!new)>(nexts: seq<seq<Node?<K>>>, xNext: seq<Node?<K>>,
                                hs: seq<nat>, slots: seq<seq<Node?<K>>>, pos: nat, x: Node<K>, n: nat)
    requires SplicedUpTo(nexts, xNext, hs, slots, pos, x, n) && n < |xNext|
    ensures var b := LastBelow(hs, pos, n);
      && n < |slots[b]| == |nexts[b]|
      && SplicedUpTo(nexts[b := nexts[b][n := x]], xNext[n := slots[b][n]], hs, slots, pos, x, n + 1)
  {
    hide LastBelow;
  }

  lemma SplicedHeights<K(!new)>(nodes: seq<Node<K>>, hs: seq<nat>, slots: seq<seq<Node?<K>>>, pos: nat, x: Node<K>)
    requires SlotsFit(nodes, hs, slots, pos) && SplicedUpTo(NextsOf(nodes), x.next, hs, slots, pos, x, |x.next|)
    ensures forall i | 0 <= i < |nodes| :: |nodes[i].next| == hs[i]
  {
    var nexts := NextsOf(nodes);
    assert forall i | 0 <= i < |nodes| :: nexts[i] == nodes[i].next;
  }

  lemma InsertedKeys<K(!new)>(cmp: Comparator<K>, nodes: seq<Node<K>>, x: Node<K>, pos: nat)
    requires |nodes| > 0 && pos == 1 + LowerBound(cmp, KeysOf(nodes)[1..], x.key)
    ensures pos <= |nodes| && KeysOf(InsertAt(nodes, pos, x))[1..] == InsertKey(cmp, KeysOf(nodes)[1..], x.key)
  {
    hide LowerBound;
  }

  lemma InsertedDistinct<K(!new)>(nodes: seq<Node<K>>, x: Node<K>, pos: nat)
    requires Distinct(nodes) && x !in nodes && pos <= |nodes|
    ensures Distinct(InsertAt(nodes, pos, x))
  {
    hide InsertAt;
    var after := InsertAt(nodes, pos, x);
    forall i, j | 0 <= i < j < |after| ensures after[i] != after[j] {
      InsertedAt(nodes, pos, x, i);
      InsertedAt(nodes, pos, x, j);
    }
  }

  lemma OldSlot<K(!new)>(nodes: seq<Node<K>>, hs: seq<nat>, pos: nat, x: Node<K>, h: nat, i: nat, l: nat)
    requires |hs| == |nodes| && 0 < pos <= |nodes| && hs[0] == MAX_HEIGHT && h <= MAX_HEIGHT
    requires i < |nodes| && l < hs[i] && hs[i] <= MAX_HEIGHT
    ensures NodeAt(InsertAt(nodes, pos, x), NextAbove(InsertAt(hs, pos, h), Moved(pos, i) + 1, l))
         == if l < h && i == LastBelow(hs, pos, l) then x else NodeAt(nodes, NextAbove(hs, i + 1, l))
  {
    hide NextAbove, LastBelow, InsertAt;
    var q := NextAbove(hs, i + 1, l);
    NextAfterInsert(hs, pos, h, l, i);
    if i < pos { LastBelowIff(hs, pos, l, i); }
    InsertedAt(nodes, pos, x, pos);
    if q < |nodes| { InsertedAt(nodes, pos, x, Moved(pos, q)); }
  }

  lemma NewSlot<K(!new)>(nodes: seq<Node<K>>, hs: seq<nat>, pos: nat, x: Node<K>, h: nat, l: nat)
    requires |hs| == |nodes| && 0 < pos <= |nodes| && hs[0] == MAX_HEIGHT && l < MAX_HEIGHT
    ensures NodeAt(InsertAt(nodes, pos, x), NextAbove(InsertAt(hs, pos, h), pos + 1, l))
         == NodeAt(nodes, NextAbove(hs, LastBelow(hs, pos, l) + 1, l))
  {
    hide NextAbove, LastBelow, InsertAt;
    var q := NextAbove(hs, LastBelow(hs, pos, l) + 1, l);
    NextOfInserted(hs, pos, h, l);
    if q < |nodes| { InsertedAt(nodes, pos, x, q + 1); }
  }

  lemma HeightsAfterInsert<K(!new)>(nodes: seq<Node<K>>, hs: seq<nat>, pos: nat, x: Node<K>)
    requires |hs| == |nodes| && pos <= |nodes| && Heights(nodes) == hs
    ensures Heights(InsertAt(nodes, pos, x)) == InsertAt<nat>(hs, pos, |x.next|)
  {
  }

  /** Splicing keeps every level linked. */
  lemma SplicedIsLinked<K(!new)>(nodes: seq<Node<K>>, hs: seq<nat>, slots: seq<seq<Node?<K>>>, pos: nat, x: Node<K>)
    requires LinkedSlots(nodes, hs, slots)
    requires SlotsFit(nodes, hs, slots, pos) && SplicedUpTo(NextsOf(nodes), x.next, hs, slots, pos, x, |x.next|)
    ensures Linked(InsertAt(nodes, pos, x))
  {
    var after := InsertAt(nodes, pos, x);
    assert Heights(nodes) == hs;
    HeightsAfterInsert(nodes, hs, pos, x);
    forall j, l | 0 <= j < |after| && 0 <= l < |after[j].next|
      ensures after[j].next[l] == NodeAt(after, NextAbove(Heights(after), j + 1, l))
    {
      SplicedSlot(nodes, hs, slots, pos, x, j, l);
    }
  }

  lemma SplicedSlot<K(!new)>(nodes: seq<Node<K>>, hs: seq<nat>, slots: seq<seq<Node?<K>>>, pos: nat, x: Node<K>,
                             j: nat, l: nat)
    requires |hs| == |nodes| && LinkedSlots(nodes, hs, slots)
    requires SlotsFit(nodes, hs, slots, pos) && SplicedUpTo(NextsOf(nodes), x.next, hs, slots, pos, x, |x.next|)
    requires j <= |nodes| && l < |InsertAt(nodes, pos, x)[j].next|
    ensures InsertAt(nodes, pos, x)[j].next[l]
         == NodeAt(InsertAt(nodes, pos, x), NextAbove(InsertAt<nat>(hs, pos, |x.next|), j + 1, l))
  {
    hide *;
    InsertedAt(nodes, pos, x, j);
    if j == pos {
      NewSlotFilled(nodes, hs, slots, pos, x, l);
      NewSlot(nodes, hs, pos, x, |x.next|, l);
    } else {
      var i := if j < pos then j else j - 1;
      OldSlotFilled(nodes, hs, slots, pos, x, i, l);
      OldSlot(nodes, hs, pos, x, |x.next|, i, l);
    }
  }

  lemma NewSlotFilled<K(!new)>(nodes: seq<Node<K>>, hs: seq<nat>, slots: seq<seq<Node?<K>>>, pos: nat, x: Node<K>,
                               l: nat)
    requires LinkedSlots(nodes, hs, slots)
    requires SlotsFit(nodes, hs, slots, pos) && SplicedUpTo(NextsOf(nodes), x.next, hs, slots, pos, x, |x.next|)
    requires l < |x.next|
    ensures |x.next| <= MAX_HEIGHT
    ensures x.next[l] == NodeAt(nodes, NextAbove(hs, LastBelow(hs, pos, l) + 1, l))
  {
    hide NextAbove, LastBelow, NodeAt;
    var p := LastBelow(hs, pos, l);
    assert x.next[l] == slots[p][l];
  }

  lemma OldSlotFilled<K(!new)>(nodes: seq<Node<K>>, hs: seq<nat>, slots: seq<seq<Node?<K>>>, pos: nat, x: Node<K>,
                               i: nat, l: nat)
    requires LinkedSlots(nodes, hs, slots)
    requires SlotsFit(nodes, hs, slots, pos) && SplicedUpTo(NextsOf(nodes), x.next, hs, slots, pos, x, |x.next|)
    requires i < |nodes| && l < |nodes[i].next|
    ensures |x.next| <= MAX_HEIGHT
    ensures |nodes[i].next| == hs[i] <= MAX_HEIGHT
    ensures nodes[i].next[l]
         == if l < |x.next| && i == LastBelow(hs, pos, l) then x else NodeAt(nodes, NextAbove(hs, i + 1, l))
  {
    hide NextAbove, LastBelow, NodeAt;
    var nexts := NextsOf(nodes);
    assert slots[i][l] == NodeAt(nodes, NextAbove(hs, i + 1, l));
    assert nexts[i][l] == if l < |x.next| && i == LastBelow(hs, pos, l) then x else slots[i][l];
  }
}
