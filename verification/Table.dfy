/** A table file as `TableBuilder` writes it: stored data blocks one after another, and an index that has,
    for each block, a separator key and the handle of the block. */
module Table {
  import opened Bytes
  import opened KeyOrder
  import opened BlockFormat
  import opened BlockBuilder
  import opened BlockIterator
  import opened Format

  // ---- The file ----

  /** Blocks with restart interval `d`, stored under compression type `kind`. */
  function File(d: nat, kind: Byte, blocks: seq<seq<Entry>>): Bytes
    requires d > 0
  {
    if blocks == [] then []
    else File(d, kind, blocks[..|blocks| - 1]) + StoredBlock(Block(d, blocks[|blocks| - 1]), kind)
  }

  function HandleAt(d: nat, kind: Byte, blocks: seq<seq<Entry>>, i: nat): Handle
    requires d > 0 && i < |blocks|
  {
    Handle(|File(d, kind, blocks[..i])|, |Block(d, blocks[i])|)
  }

  /** What a reader gets for a handle: the block and its trailer. */
  predicate InFile(h: Handle, file: Bytes) {
    h.offset + h.size + BLOCK_TRAILER <= |file|
  }

  function Slice(h: Handle, file: Bytes): Bytes
    requires InFile(h, file)
  {
    file[h.offset..h.offset + h.size + BLOCK_TRAILER]
  }

  lemma FileGrows(d: nat, kind: Byte, blocks: seq<seq<Entry>>, block: seq<Entry>)
    requires d > 0
    ensures File(d, kind, blocks + [block]) == File(d, kind, blocks) + StoredBlock(Block(d, block), kind)
  {
    hide Block, StoredBlock;
    assert (blocks + [block])[..|blocks|] == blocks;
  }

  /** The handle of a block leads to its stored bytes, however the file grows. */
  lemma {:induction false} HandleLeadsToBlock(d: nat, kind: Byte, blocks: seq<seq<Entry>>, i: nat, more: Bytes)
    requires d > 0 && i < |blocks|
    ensures var h := HandleAt(d, kind, blocks, i); var file := File(d, kind, blocks) + more;
      InFile(h, file) && Slice(h, file) == StoredBlock(Block(d, blocks[i]), kind)
  {
    hide Block, StoredBlock;
    var n := |blocks| - 1;
    var last := StoredBlock(Block(d, blocks[n]), kind);
    assert File(d, kind, blocks) + more == File(d, kind, blocks[..n]) + (last + more);
    if i < n {
      HandleLeadsToBlock(d, kind, blocks[..n], i, last + more);
      assert blocks[..n][..i] == blocks[..i];
    }
  }

  // ---- The index ----

  function Flatten(blocks: seq<seq<Entry>>): seq<Entry> {
    if blocks == [] then [] else Flatten(blocks[..|blocks| - 1]) + blocks[|blocks| - 1]
  }

  lemma {:induction false} FlattenAt(blocks: seq<seq<Entry>>, j: nat, k: nat)
    requires j < |blocks| && k < |blocks[j]|
    ensures var at := |Flatten(blocks[..j])| + k;
      at < |Flatten(blocks)| && Flatten(blocks)[at] == blocks[j][k]
  {
    var n := |blocks| - 1;
    if j < n {
      FlattenAt(blocks[..n], j, k);
      assert blocks[..n][..j] == blocks[..j];
    }
  }

  ghost predicate IsBlock(cmp: Comparator<Bytes>, es: seq<Entry>) {
    |es| > 0 && StrictlySorted(cmp, KeysOf(es))
  }

  function FirstKey(es: seq<Entry>): Bytes
    requires |es| > 0
  {
    es[0].key
  }

  /** Each index key separates its block from the next. */
  ghost predicate Separated(cmp: Comparator<Bytes>, blocks: seq<seq<Entry>>, index: seq<Entry>) {
    && |index| <= |blocks|
    && (forall i | 0 <= i < |blocks| :: IsBlock(cmp, blocks[i]))
    && (forall i | 0 <= i < |index| :: !Before(cmp, index[i].key, LastKey(blocks[i])))
    && (forall i | 0 <= i < |index| && i + 1 < |blocks| :: Before(cmp, index[i].key, FirstKey(blocks[i + 1])))
  }

  lemma KeysOfAppend(a: seq<Entry>, b: seq<Entry>)
    ensures KeysOf(a + b) == KeysOf(a) + KeysOf(b)
  {
  }

  lemma LowerBoundAppend(cmp: Comparator<Bytes>, a: seq<Bytes>, b: seq<Bytes>, target: Bytes)
    ensures LowerBound(cmp, a + b, target)
         == if LowerBound(cmp, a, target) == |a| then |a| + LowerBound(cmp, b, target) else LowerBound(cmp, a, target)
  {
    var n := if LowerBound(cmp, a, target) == |a| then |a| + LowerBound(cmp, b, target) else LowerBound(cmp, a, target);
    LowerBoundUnique(cmp, a + b, target, n);
  }

  /** The number of keys of a block before `target`. */
  function KeysBefore(cmp: Comparator<Bytes>, es: seq<Entry>, target: Bytes): nat {
    LowerBound(cmp, KeysOf(es), target)
  }

  lemma KeysBeforeAppend(cmp: Comparator<Bytes>, a: seq<Entry>, b: seq<Entry>, target: Bytes)
    ensures KeysBefore(cmp, a + b, target)
         == if KeysBefore(cmp, a, target) == |a| then |a| + KeysBefore(cmp, b, target) else KeysBefore(cmp, a, target)
  {
    KeysOfAppend(a, b);
    LowerBoundAppend(cmp, KeysOf(a), KeysOf(b), target);
  }

  lemma AllBefore(cmp: Comparator<Bytes>, es: seq<Entry>, target: Bytes)
    requires TotalPreorder(cmp) && IsBlock(cmp, es) && Before(cmp, LastKey(es), target)
    ensures KeysBefore(cmp, es, target) == |es|
  {
    var n := KeysBefore(cmp, es, target);
    if n < |es| - 1 {
      assert Before(cmp, KeysOf(es)[n], KeysOf(es)[|es| - 1]);
      BeforeTransitive(cmp, KeysOf(es)[n], LastKey(es), target);
    }
  }

  lemma NoneBefore(cmp: Comparator<Bytes>, es: seq<Entry>, target: Bytes)
    requires |es| > 0 && !Before(cmp, FirstKey(es), target)
    ensures KeysBefore(cmp, es, target) == 0
  {
  }

  lemma FirstNotAfterLast(cmp: Comparator<Bytes>, es: seq<Entry>)
    requires TotalPreorder(cmp) && IsBlock(cmp, es)
    ensures !Before(cmp, LastKey(es), FirstKey(es))
  {
    if |es| > 1 {
      assert Before(cmp, KeysOf(es)[0], KeysOf(es)[|es| - 1]);
      BeforeAsymmetric(cmp, FirstKey(es), LastKey(es));
    }
  }

  lemma IndexStep(cmp: Comparator<Bytes>, blocks: seq<seq<Entry>>, index: seq<Entry>, j: nat)
    requires TotalPreorder(cmp) && Separated(cmp, blocks, index) && j + 1 < |index|
    ensures Before(cmp, index[j].key, index[j + 1].key)
  {
    var first, last := FirstKey(blocks[j + 1]), LastKey(blocks[j + 1]);
    FirstNotAfterLast(cmp, blocks[j + 1]);
    assert Before(cmp, index[j].key, first);
    assert Before(cmp, index[j].key, last);
  }

  lemma {:induction false} ChainBefore(cmp: Comparator<Bytes>, keys: seq<Bytes>, i: nat, j: nat)
    requires TotalPreorder(cmp) && forall k | 0 < k < |keys| :: Before(cmp, keys[k - 1], keys[k])
    requires i < j < |keys|
    ensures Before(cmp, keys[i], keys[j])
  {
    if i < j - 1 {
      ChainBefore(cmp, keys, i, j - 1);
      BeforeTransitive(cmp, keys[i], keys[j - 1], keys[j]);
    }
  }

  lemma IndexSizes(cmp: Comparator<Bytes>, blocks: seq<seq<Entry>>, index: seq<Entry>)
    requires Separated(cmp, blocks, index)
    ensures |index| <= |blocks|
  {
  }

  /** The index is sorted, so that its blocks can be searched by bisection. */
  lemma IndexSorted(cmp: Comparator<Bytes>, blocks: seq<seq<Entry>>, index: seq<Entry>)
    requires TotalPreorder(cmp) && Separated(cmp, blocks, index)
    ensures StrictlySorted(cmp, KeysOf(index))
  {
    hide Separated, TotalPreorder;
    var keys := KeysOf(index);
    forall k | 0 < k < |keys| ensures Before(cmp, keys[k - 1], keys[k]) {
      IndexSizes(cmp, blocks, index);
      IndexStep(cmp, blocks, index, k - 1);
    }
    forall i, j | 0 <= i < j < |keys| ensures Before(cmp, keys[i], keys[j]) {
      ChainBefore(cmp, keys, i, j);
    }
  }

  lemma StrictIsSorted(cmp: Comparator<Bytes>, keys: seq<Bytes>)
    requires TotalPreorder(cmp) && StrictlySorted(cmp, keys)
    ensures Sorted(cmp, keys)
  {
  }

  /** Blocks in front of the one that the index leads to. */
  lemma {:induction false} EarlierBlocks(cmp: Comparator<Bytes>, blocks: seq<seq<Entry>>, index: seq<Entry>,
                                         target: Bytes, j: nat)
    requires TotalPreorder(cmp) && Separated(cmp, blocks, index) && |index| == |blocks|
    requires j <= LowerBound(cmp, KeysOf(index), target)
    ensures KeysBefore(cmp, Flatten(blocks[..j]), target) == |Flatten(blocks[..j])|
  {
    if j > 0 {
      hide Separated, KeysBefore, TotalPreorder, Flatten, KeysOf;
      EarlierBlocks(cmp, blocks, index, target, j - 1);
      FlattenOneMore(blocks, j - 1);
      BlockBeforeIndexKey(cmp, blocks, index, target, j - 1);
      KeysBeforeAppend(cmp, Flatten(blocks[..j - 1]), blocks[j - 1], target);
    }
  }

  lemma BlockBeforeIndexKey(cmp: Comparator<Bytes>, blocks: seq<seq<Entry>>, index: seq<Entry>, target: Bytes, j: nat)
    requires TotalPreorder(cmp) && Separated(cmp, blocks, index) && j < |index|
    requires j < LowerBound(cmp, KeysOf(index), target)
    ensures KeysBefore(cmp, blocks[j], target) == |blocks[j]|
  {
    assert Before(cmp, KeysOf(index)[j], target);
    BeforeWeakly(cmp, LastKey(blocks[j]), index[j].key, target);
    AllBefore(cmp, blocks[j], target);
  }

  lemma BeforeWeakly(cmp: Comparator<Bytes>, a: Bytes, b: Bytes, c: Bytes)
    requires TotalPreorder(cmp) && !Before(cmp, b, a) && Before(cmp, b, c)
    ensures Before(cmp, a, c)
  {
  }

  lemma NotBeforeWeakly(cmp: Comparator<Bytes>, a: Bytes, b: Bytes, c: Bytes)
    requires TotalPreorder(cmp) && Before(cmp, a, b) && !Before(cmp, a, c)
    ensures !Before(cmp, b, c)
  {
  }

  /** Blocks behind it. */
  lemma BlockAfterIndexKey(cmp: Comparator<Bytes>, blocks: seq<seq<Entry>>, index: seq<Entry>, target: Bytes, j: nat)
    requires TotalPreorder(cmp) && Separated(cmp, blocks, index) && |index| == |blocks|
    requires LowerBound(cmp, KeysOf(index), target) < j < |blocks|
    ensures KeysBefore(cmp, blocks[j], target) == 0
  {
    IndexSorted(cmp, blocks, index);
    StrictIsSorted(cmp, KeysOf(index));
    LowerBoundSplits(cmp, KeysOf(index), target);
    assert !Before(cmp, KeysOf(index)[j - 1], target);
    assert Before(cmp, index[j - 1].key, FirstKey(blocks[j - 1 + 1]));
    NotBeforeWeakly(cmp, index[j - 1].key, FirstKey(blocks[j]), target);
    NoneBefore(cmp, blocks[j], target);
  }

  lemma {:induction false} LaterBlocks(cmp: Comparator<Bytes>, blocks: seq<seq<Entry>>, index: seq<Entry>,
                                       target: Bytes, i: nat, j: nat)
    requires TotalPreorder(cmp) && Separated(cmp, blocks, index) && |index| == |blocks|
    requires i == LowerBound(cmp, KeysOf(index), target) < j <= |blocks|
    ensures KeysBefore(cmp, Flatten(blocks[..j]), target)
         == |Flatten(blocks[..i])| + KeysBefore(cmp, blocks[i], target)
  {
    hide Separated, KeysBefore, TotalPreorder;
    assert blocks[..j][..j - 1] == blocks[..j - 1];
    KeysBeforeAppend(cmp, Flatten(blocks[..j - 1]), blocks[j - 1], target);
    if j == i + 1 {
      EarlierBlocks(cmp, blocks, index, target, i);
    } else {
      LaterBlocks(cmp, blocks, index, target, i, j - 1);
      BlockAfterIndexKey(cmp, blocks, index, target, j - 1);
    }
  }

  /** Two searches, one in the index and one in the block it leads to, find the place of the target among
      all entries. If every key of that block is before the target, the place is the end of the block. */
  lemma TwoLevelSeek(cmp: Comparator<Bytes>, blocks: seq<seq<Entry>>, index: seq<Entry>, target: Bytes)
    requires TotalPreorder(cmp) && Separated(cmp, blocks, index) && |index| == |blocks|
    ensures var i := KeysBefore(cmp, index, target);
      KeysBefore(cmp, Flatten(blocks), target)
      == if i < |blocks| then |Flatten(blocks[..i])| + KeysBefore(cmp, blocks[i], target) else |Flatten(blocks)|
  {
    var i := KeysBefore(cmp, index, target);
    assert blocks[..|blocks|] == blocks;
    if i < |blocks| {
      LaterBlocks(cmp, blocks, index, target, i, |blocks|);
    } else {
      EarlierBlocks(cmp, blocks, index, target, |blocks|);
    }
  }

  /** The search of the block finds the first entry of all that is not before the target, or there is no entry with
      the target as its key. */
  lemma PlaceInBlock(cmp: Comparator<Bytes>, blocks: seq<seq<Entry>>, index: seq<Entry>, target: Bytes)
    requires TotalPreorder(cmp) && Separated(cmp, blocks, index) && |index| == |blocks|
    ensures var i, es := KeysBefore(cmp, index, target), Flatten(blocks);
      var n := KeysBefore(cmp, es, target);
      if i < |blocks| then
        var k := KeysBefore(cmp, blocks[i], target);
        if k < |blocks[i]| then n < |es| && es[n] == blocks[i][k]
        else n >= |es| || cmp(es[n].key, target) != 0
      else n == |es|
  {
    hide *;
    TwoLevelSeek(cmp, blocks, index, target);
    var i := KeysBefore(cmp, index, target);
    if i < |blocks| {
      var k := KeysBefore(cmp, blocks[i], target);
      KeysBeforeFits(cmp, blocks[i], target);
      if k < |blocks[i]| {
        FlattenAt(blocks, i, k);
      } else {
        FlattenOneMore(blocks, i);
        if i + 1 < |blocks| {
          NextBlockIsAfter(cmp, blocks, index, target, i);
          FlattenAt(blocks, i + 1, 0);
        } else {
          assert blocks[..i + 1] == blocks;
        }
      }
    }
  }

  lemma KeysBeforeFits(cmp: Comparator<Bytes>, es: seq<Entry>, target: Bytes)
    ensures KeysBefore(cmp, es, target) <= |es|
  {
  }

  lemma FlattenOneMore(blocks: seq<seq<Entry>>, i: nat)
    requires i < |blocks|
    ensures Flatten(blocks[..i + 1]) == Flatten(blocks[..i]) + blocks[i]
  {
    assert blocks[..i + 1][..i] == blocks[..i];
  }

  lemma NextBlockIsAfter(cmp: Comparator<Bytes>, blocks: seq<seq<Entry>>, index: seq<Entry>, target: Bytes, i: nat)
    requires TotalPreorder(cmp) && Separated(cmp, blocks, index) && |index| == |blocks|
    requires i == KeysBefore(cmp, index, target) && i + 1 < |blocks|
    ensures |blocks[i + 1]| > 0 && cmp(blocks[i + 1][0].key, target) > 0
  {
    AtPlace(cmp, index, target);
    assert IsBlock(cmp, blocks[i + 1]);
    hide KeysOf, LowerBound, KeysBefore;
    var first := FirstKey(blocks[i + 1]);
    assert Before(cmp, index[i].key, first);
    AfterWeakly(cmp, target, index[i].key, first);
  }

  lemma AtPlace(cmp: Comparator<Bytes>, es: seq<Entry>, target: Bytes)
    ensures var k := KeysBefore(cmp, es, target); k < |es| ==> !Before(cmp, es[k].key, target)
  {
  }

  lemma AfterWeakly(cmp: Comparator<Bytes>, a: Bytes, b: Bytes, c: Bytes)
    requires TotalPreorder(cmp) && !Before(cmp, b, a) && Before(cmp, b, c)
    ensures cmp(c, a) > 0
  {
    BeforeWeakly(cmp, a, b, c);
  }
}
