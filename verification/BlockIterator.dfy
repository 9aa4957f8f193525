/** table/block.cpp: reading a block. What a parsing step does is said of any bytes at all; where seeking
    and moving lead, of blocks that a builder finished. */
module BlockIterator {
  import opened Arithmetic
  import opened Bytes
  import opened Coding
  import opened BlockFormat
  import opened KeyOrder

  function KeysOf(es: seq<Entry>): (keys: seq<Bytes>)
    ensures |keys| == |es| && forall i | 0 <= i < |es| :: keys[i] == es[i].key
  {
    seq(|es|, i requires 0 <= i < |es| => es[i].key)
  }

  /** `NewIterator`: the bytes have room for a restart array of the size that they announce. */
  predicate Readable(block: Bytes) {
    4 <= |block| < TWO_32 && 0 < NumRestarts(block) <= (|block| - 4) / 4
  }

  lemma BuiltIsReadable(d: nat, es: seq<Entry>)
    requires d > 0 && |Block(d, es)| < TWO_32
    ensures Readable(Block(d, es))
  {
    hide NumRestarts, RestartOffset, Area;
    BlockSplits(d, es);
    BlockIs(d, es);
    CountPositive(d, |es|);
    RestartsLength(d, es, |es|);
  }

  /** A block of 15 bytes that opens like any other, and whose one key reaches outside. */
  lemma OverflowingBlock()
    ensures var entry: Bytes := [0, 0xff, 0xff, 0xff, 0xff, 0x0f, 1];
      var block := entry + Fixed32(0) + Fixed32(1);
      && Readable(block) && RestartPoint(block, 0) == 0 && block[..RestartOffset(block)] == entry
      && DecodeEntry(entry).Some? && DecodeEntry(entry).value.length + DecodeEntry(entry).value.nonShared > |entry|
  {
    var entry: Bytes := [0, 0xff, 0xff, 0xff, 0xff, 0x0f, 1];
    OverflowPasses();
    assert [0][..0] == [] && RestartArray([]) == [];
    assert RestartArray([0]) == Fixed32(0);
    hide Fixed32, DecodeEntry, NumRestarts, RestartOffset, RestartPoint, RestartArray;
    SplitCount(entry, RestartArray([0]), Fixed32(1), 1);
    SplitPoint(entry, [0], Fixed32(1), 0);
  }

  /** How a parsing step ends: with no further entry, or an error; at an entry; or in copying a key from outside
      the entries. What the source does then is undefined. */
  datatype ParseStep = Stopped | Arrived | Overran

  lemma RestartPointFits(block: Bytes, k: nat)
    ensures RestartPoint(block, k) < TWO_32
  {
    hide FixedValue, RestartOffset, Pow;
    Widths();
    var at := RestartOffset(block) + 4 * k;
    if at + 4 <= |block| {
      var bytes := block[at..at + 4];
      FixedOfValue(bytes);
      assert |bytes| == 4;
    }
  }

  class BlockIterator {
    const cmp: Comparator<Bytes>
    const data: Bytes
    const restarts: nat    // where the entries end
    const numRestarts: nat
    var current: nat       // offset of the current entry; `restarts` if there is none
    var restartIndex: nat
    var key: Bytes
    var valueAt: nat       // `value_` as a range of `data`
    var valueLength: nat
    var corrupted: bool    // status_

    ghost const d: nat           // the restart interval of a block that a builder finished, otherwise 0
    ghost const es: seq<Entry>   // and its entries
    ghost var pos: nat           // index of the current entry; |es| if there is none

    /** The entries and all restart points lie inside the data. */
    predicate Usable() {
      restarts + 4 * numRestarts + 4 <= |data| < TWO_32 && restarts == RestartOffset(data) && numRestarts > 0
    }

    ghost predicate Built() {
      && d > 0 && data == Block(d, es) && |data| < TWO_32
      && restarts == RestartOffset(data) && numRestarts == NumRestarts(data)
    }

    /** A `uint32_t`. */
    function NextEntryOffset(): (offset: nat)
      reads this
      ensures offset == ToUint32(valueAt + valueLength)
      ensures valueAt + valueLength < TWO_32 ==> offset == valueAt + valueLength
    {
      ToUint32(valueAt + valueLength)
    }

    /** The next entry to be parsed is number `i`. */
    ghost predicate Between(i: nat)
      reads this
    {
      && Built() && !corrupted && i <= |es| && restartIndex < numRestarts
      && valueAt + valueLength == Offset(d, es, i)
      && (i < |es| ==> ReadyFor(d, es, i, key))
    }

    /** The iterator is at entry `pos`, or at no entry. */
    ghost predicate Placed()
      reads this
    {
      && Built() && !corrupted && pos <= |es|
      && if pos < |es| then
           && current == Offset(d, es, pos) && key == es[pos].key
           && valueAt + valueLength == Offset(d, es, pos + 1) <= |data|
           && data[valueAt..valueAt + valueLength] == es[pos].value
           && restartIndex < numRestarts
         else current == restarts
    }

    /** On any bytes; for a block that a builder finished, `d` and `es` say what it holds. */
    constructor (cmp: Comparator<Bytes>, block: Bytes, ghost d: nat := 0, ghost es: seq<Entry> := [])
      requires Readable(block)
      requires d > 0 ==> block == Block(d, es)
      ensures Usable() && data == block && this.cmp == cmp && this.d == d && this.es == es
      ensures current == restarts && restartIndex == numRestarts && key == [] && !corrupted
      ensures d > 0 ==> Placed() && pos == |es|
    {
      this.cmp := cmp;
      data := block;
      restarts := RestartOffset(block);
      numRestarts := NumRestarts(block);
      current := RestartOffset(block);
      restartIndex := NumRestarts(block);
      key, valueAt, valueLength, corrupted := [], *, 0, false;
      this.d, this.es, pos := d, es, |es|;
    }

    method Valid() returns (valid: bool)
      requires Placed()
      ensures valid <==> pos < |es|
    {
      if pos < |es| { InsideArea(pos); } else { OutsideArea(); }
      valid := current < restarts;
    }

    method Key() returns (key: Bytes)
      requires Placed() && pos < |es|
      ensures key == es[pos].key
    {
      key := this.key;
    }

    method Value() returns (value: Bytes)
      requires Placed() && pos < |es|
      ensures value == es[pos].value
    {
      value := data[valueAt..valueAt + valueLength];
    }

    lemma InsideArea(i: nat)
      requires Built() && i < |es|
      ensures Offset(d, es, i) < Offset(d, es, i + 1) <= restarts <= |data|
    {
      hide *;
      BuiltParts();
      OffsetsGrow(d, es, i, i + 1);
      OffsetsGrow(d, es, i + 1, |es|);
    }

    lemma OutsideArea()
      requires Built()
      ensures Offset(d, es, |es|) == restarts <= |data|
    {
      hide *;
      BuiltParts();
    }

    lemma BuiltParts()
      requires Built()
      ensures d > 0 && data == Block(d, es) && |data| < TWO_32 && |data| >= 8
      ensures restarts == |Area(d, es, |es|)| == Offset(d, es, |es|) <= |data| && data[..restarts] == Area(d, es, |es|)
      ensures numRestarts == RestartCount(d, |es|) > 0 && Usable()
    {
      BlockSplits(d, es);
      CountPositive(d, |es|);
    }

    /** What `DecodeEntry` sees from entry `i` on. */
    lemma RestOfArea(i: nat)
      requires Built() && i <= |es|
      ensures Offset(d, es, i) <= restarts <= |data|
      ensures data[Offset(d, es, i)..restarts] == Tail(d, es, i)
    {
      hide *;
      BuiltParts();
      TailAt(d, es, i);
      assert data[Offset(d, es, i)..restarts] == data[..restarts][Offset(d, es, i)..];
    }

    lemma ParsedEntry(i: nat, key: Bytes)
      requires Built() && i < |es| && ReadyFor(d, es, i, key)
      ensures Offset(d, es, i) < restarts <= |data|
      ensures var rest := data[Offset(d, es, i)..restarts]; var h := DecodeEntry(rest);
        && h.Some? && InBounds(rest, key, h.value) && EntryFrom(rest, key, h.value) == es[i]
        && Offset(d, es, i) + EndOf(h.value) == Offset(d, es, i + 1)
        && (i % d == 0 ==> h.value.shared == 0)
    {
      hide *;
      RestOfArea(i);
      InsideArea(i);
      BuiltParts();
      EntryDecodes(d, es, i, key);
      NextOffset(i);
    }

    lemma NextOffset(i: nat)
      requires Built() && i < |es|
      ensures Offset(d, es, i + 1) == Offset(d, es, i) + |EncodedAt(d, es, i)|
      ensures i % d == 0 ==> Shared(d, es, i) == 0
    {
    }

    /** Where the parts of entry `i` lie in the block. */
    lemma PartsOfEntry(i: nat, key: Bytes)
      requires Built() && i < |es| && ReadyFor(d, es, i, key)
      ensures var at := Offset(d, es, i);
        && at < restarts <= |data|
        && var header := DecodeEntry(data[at..restarts]);
        && header.Some?
        && var h := header.value;
        && var p := at + h.length;
        && h.shared <= |key| && p + h.nonShared + h.valueLength == Offset(d, es, i + 1) <= restarts
        && key[..h.shared] + data[p..p + h.nonShared] == es[i].key
        && data[p + h.nonShared..p + h.nonShared + h.valueLength] == es[i].value
        && (i % d == 0 ==> h.shared == 0)
        && (i + 1 < |es| ==> ReadyFor(d, es, i + 1, es[i].key))
    {
      hide *;
      BuiltParts();
      ParsedEntry(i, key);
      InsideArea(i);
      if i + 1 < |es| { ReadyAfterPrevious(d, es, i + 1); }
      var at := Offset(d, es, i);
      var rest := data[at..restarts];
      PartsOfEntryFrom(data, at, restarts, key, DecodeEntry(rest).value, es[i]);
    }

    static lemma PartsOfEntryFrom(data: Bytes, at: nat, end: nat, key: Bytes, h: EntryHeader, e: Entry)
      requires at <= end <= |data| && InBounds(data[at..end], key, h) && EntryFrom(data[at..end], key, h) == e
      ensures h.shared <= |key| && EndOf(h) == h.length + h.nonShared + h.valueLength && at + EndOf(h) <= end
      ensures key[..h.shared] + data[at + h.length..at + h.length + h.nonShared] == e.key
      ensures data[at + h.length + h.nonShared..at + EndOf(h)] == e.value
    {
      SliceOfSlice(data, at, end, h.length, h.length + h.nonShared);
      SliceOfSlice(data, at, end, h.length + h.nonShared, EndOf(h));
      hide *;
    }

    static lemma SliceOfSlice(data: Bytes, at: nat, end: nat, a: nat, b: nat)
      requires at <= end <= |data| && a <= b <= end - at
      ensures data[at..end][a..b] == data[at + a..at + b]
    {
      assert forall k | 0 <= k < b - a :: data[at..end][a..b][k] == data[at..end][a + k] == data[at + a..at + b][k];
    }

    method AdvanceRestartIndex()
      modifies `restartIndex
      ensures old(restartIndex) <= restartIndex
      ensures old(restartIndex) < numRestarts ==> restartIndex < numRestarts
      ensures restartIndex + 1 < numRestarts ==> RestartPoint(data, restartIndex + 1) >= current
    {
      while restartIndex + 1 < numRestarts && RestartPoint(data, restartIndex + 1) < current
        invariant old(restartIndex) <= restartIndex
        invariant old(restartIndex) < numRestarts ==> restartIndex < numRestarts
        decreases numRestarts - restartIndex
      {
        restartIndex := restartIndex + 1;
      }
    }

    /** `value_.clear()` leaves a pointer outside the block, so that the next offset is anybody's guess. */
    method CorruptionError()
      modifies this
      ensures corrupted && current == restarts && key == [] && pos == old(pos)
    {
      current := restarts;
      restartIndex := numRestarts;
      corrupted := true;
      key, valueAt, valueLength := [], *, 0;
    }

    /** What `DecodeEntry` is given for an offset: nothing, if that is behind the entries. */
    function Rest(at: nat): (rest: Bytes)
      requires restarts <= |data|
      ensures |rest| <= |data|
    {
      if at <= restarts then data[at..restarts] else []
    }

    /** On any block, whoever wrote it: the key of the entry is copied from outside the entries exactly if it ends
        there. Otherwise, the value is a range of the entries exactly if the two lengths do not overflow 32 bits;
        and in any case the next offset lies further on, and not outside. */
    method ParseNextKey() returns (r: ParseStep)
      requires Usable()
      modifies this
      ensures pos == old(pos)
      ensures var at := old(NextEntryOffset()); var header := DecodeEntry(Rest(at));
        if at >= restarts then
          r == Stopped && current == restarts && corrupted == old(corrupted)
        else if header.None? || |old(key)| < header.value.shared then
          r == Stopped && current == restarts && corrupted
        else
          var h := header.value;
          && r != Stopped
          && (r == Overran <==> at + h.length + h.nonShared > restarts)
          && (r == Overran ==> h.nonShared + h.valueLength >= TWO_32)
          && (r == Arrived ==>
                && current == at && corrupted == old(corrupted)
                && (old(restartIndex) < numRestarts ==> restartIndex < numRestarts)
                && valueAt == at + h.length + h.nonShared && valueLength == h.valueLength
                && (valueAt + valueLength <= restarts <==> h.nonShared + h.valueLength < TWO_32)
                && at < NextEntryOffset() <= restarts
                && key == old(key)[..h.shared] + data[at + h.length..valueAt])
    {
      hide RestartOffset, NumRestarts, ParseHeader, RestartPoint, ToUint32, DecodeEntry;
      current := NextEntryOffset();
      if current >= restarts {
        current := restarts;
        restartIndex := numRestarts;
        return Stopped;
      }
      var header := DecodeEntry(Rest(current));
      if header.None? || |key| < header.value.shared {
        CorruptionError();
        return Stopped;
      }
      var h := header.value;
      var p := current + h.length;
      CheckedIffNoOverflow(Rest(current));
      WrappedSumFits(Rest(current));
      WrappedSum(p, h.nonShared + h.valueLength);
      if p + h.nonShared > restarts {
        return Overran;
      }
      key := key[..h.shared] + data[p..p + h.nonShared];
      valueAt, valueLength := p + h.nonShared, h.valueLength;
      assert valueAt + valueLength == p + (h.nonShared + h.valueLength);
      AdvanceRestartIndex();
      r := Arrived;
    }

    /** Stepping through any block comes to an end, or outside: every step moves on. */
    method ReadToEnd() returns (keys: seq<Bytes>, r: ParseStep)
      requires Usable()
      modifies this
      ensures r != Arrived
      ensures old(NextEntryOffset()) <= restarts ==> |keys| <= restarts - old(NextEntryOffset())
      ensures old(NextEntryOffset()) > restarts ==> keys == []
    {
      hide Usable, DecodeEntry, ToUint32;
      ghost var start := NextEntryOffset();
      keys, r := [], Arrived;
      while r == Arrived
        invariant r == Arrived ==> start + |keys| <= NextEntryOffset()
        invariant keys == [] || start + |keys| <= restarts
        decreases r == Arrived, restarts - NextEntryOffset()
      {
        r := ParseNextKey();
        if r == Arrived {
          keys := keys + [key];
        }
      }
    }

    // ---- On a block that a builder finished ----

    lemma BetweenMeans(i: nat)
      requires Between(i)
      ensures Built() && d > 0 && !corrupted && i <= |es| && restartIndex < numRestarts
      ensures valueAt + valueLength == NextEntryOffset() == Offset(d, es, i)
      ensures i < |es| ==> ReadyFor(d, es, i, key)
    {
      hide Block, Offset, ReadyFor, RestartOffset, NumRestarts, ToUint32;
      OutsideArea();
      OffsetsGrow(d, es, i, |es|);
    }

    /** Fields that hold entry `i` hold everything the iterator needs. */
    lemma HoldsEntry(i: nat)
      requires Built() && d > 0 && !corrupted && i < |es| && pos == i && restartIndex < numRestarts
      requires current == Offset(d, es, i) && key == es[i].key
      requires valueAt + valueLength == Offset(d, es, i + 1) <= |data|
      requires data[valueAt..valueAt + valueLength] == es[i].value
      requires i + 1 < |es| ==> ReadyFor(d, es, i + 1, es[i].key)
      ensures Placed() && Between(i + 1)
    {
      hide Built, ReadyFor, Offset;
    }

    lemma HoldsNothing()
      requires Built() && !corrupted && pos == |es| && current == restarts
      ensures Placed()
    {
    }

    /** Every call of `ParseNextKey` reads the next entry, and finds nothing wrong. */
    method ParseEntry(ghost i: nat) returns (ok: bool)
      requires Between(i)
      modifies this
      ensures Placed() && pos == i && (ok <==> i < |es|)
      ensures i < |es| ==> Between(i + 1)
    {
      hide *;
      BetweenMeans(i);
      BuiltParts();
      RestIs(NextEntryOffset());
      if i < |es| { PartsOfEntry(i, key); } else { OutsideArea(); }
      var r := ParseNextKey();
      ok := r == Arrived;
      pos := i;
      if i < |es| { HoldsEntry(i); } else { HoldsNothing(); }
    }

    lemma RestIs(at: nat)
      requires restarts <= |data|
      ensures at < restarts ==> Rest(at) == data[at..restarts]
    {
    }

    /** The entry that restart point `k` belongs to. */
    ghost function EntryOf(k: nat): nat {
      k * d
    }

    lemma RestartEntry(k: nat)
      requires Built() && k < numRestarts
      ensures d > 0 && EntryOf(k) <= |es| && (0 < |es| ==> EntryOf(k) < |es|)
      ensures RestartPoint(data, k) == Offset(d, es, EntryOf(k))
      ensures EntryOf(k) % d == 0 && EntryOf(0) == 0
    {
      hide *;
      BuiltParts();
      EntryOfIs(k);
      RestartEntryFits(d, |es|, k);
      RestartPointIs(d, es, k, EntryOf(k));
      RestartIsMultiple(d, k);
    }

    lemma EntryOfIs(k: nat)
      ensures EntryOf(k) == k * d && EntryOf(0) == 0
    {
    }

    /** On any block. */
    method SeekToRestartPoint(index: nat)
      requires Usable() && index < numRestarts
      modifies `key, `restartIndex, `valueAt, `valueLength
      ensures key == [] && restartIndex == index && valueLength == 0
      ensures NextEntryOffset() == valueAt + valueLength == RestartPoint(data, index)
    {
      RestartPointFits(data, index);
      key := [];
      restartIndex := index;
      valueAt, valueLength := RestartPoint(data, index), 0;
    }

    /** On a built block, the entry at the restart point comes next. */
    lemma BetweenAtRestart(index: nat)
      requires Built() && !corrupted && restartIndex == index < numRestarts
      requires key == [] && valueAt + valueLength == RestartPoint(data, index)
      ensures d > 0 && EntryOf(index) <= |es| && Between(EntryOf(index))
    {
      RestartEntry(index);
      hide Built, ReadyFor, Offset, RestartPoint, EntryOf;
      if EntryOf(index) < |es| { ReadyAtRestart(d, es, EntryOf(index), []); }
    }

    lemma PlacedMeans()
      requires Placed()
      ensures Built() && d > 0 && !corrupted && pos <= |es|
      ensures pos < |es| ==> current == Offset(d, es, pos) && NextEntryOffset() == Offset(d, es, pos + 1)
      ensures pos < |es| ==> restartIndex < numRestarts && key == es[pos].key
      ensures pos < |es| ==> Between(pos + 1)
    {
      if pos + 1 < |es| { ReadyAfterPrevious(d, es, pos + 1); }
    }

    method SeekToFirst()
      requires Placed()
      modifies this
      ensures Placed() && pos == 0
    {
      hide *;
      PlacedMeans();
      BuiltParts();
      RestartEntry(0);
      SeekToRestartPoint(0);
      BetweenAtRestart(0);
      var _ := ParseEntry(0);
    }

    method Next()
      requires Placed() && pos < |es|
      modifies this
      ensures Placed() && pos == old(pos) + 1
    {
      hide *;
      PlacedMeans();
      var _ := ParseEntry(pos + 1);
    }

    /** Reads on from entry `i` until the next entry would not begin before `end`, which is where entry
        `last` ends; or, if there is no entry `i`, until that is found out. */
    method ParseUpTo(ghost i: nat, end: nat, ghost last: nat)
      requires Between(i) && d > 0
      requires i < |es| ==> i <= last < |es| && end == Offset(d, es, last + 1)
      modifies this
      ensures Placed() && pos == if i < |es| then last else |es|
    {
      hide *;
      BetweenMeans(i);
      ghost var k := i;
      var more := ParseEntry(k);
      if more { AtEntry(k, last); }
      while more && NextEntryOffset() < end
        invariant Placed() && d > 0 && k <= |es| && (more <==> k < |es|) && (i < |es| <==> k < |es|)
        invariant pos == k && (more ==> Between(k + 1))
        invariant more ==> k <= last < |es| && end == Offset(d, es, last + 1)
        invariant more ==> NextEntryOffset() == Offset(d, es, k + 1) && (NextEntryOffset() < end <==> k < last)
        decreases last - k
      {
        k := k + 1;
        more := ParseEntry(k);
        AtEntry(k, last);
      }
    }

    lemma AtEntry(k: nat, last: nat)
      requires Placed() && d > 0 && pos == k <= last < |es|
      ensures NextEntryOffset() == Offset(d, es, k + 1)
      ensures NextEntryOffset() < Offset(d, es, last + 1) <==> k < last
    {
      hide *;
      PlacedMeans();
      OffsetsGrow(d, es, k + 1, last + 1);
    }

    method SeekToLast()
      requires Placed()
      modifies this
      ensures Placed() && pos == if |es| == 0 then 0 else |es| - 1
    {
      hide *;
      PlacedMeans();
      BuiltParts();
      RestartEntry(numRestarts - 1);
      SeekToRestartPoint(numRestarts - 1);
      BetweenAtRestart(numRestarts - 1);
      ParseUpTo(EntryOf(numRestarts - 1), restarts, if |es| == 0 then 0 else |es| - 1);
    }

    method Prev()
      requires Placed() && pos < |es|
      modifies this
      ensures Placed() && pos == if old(pos) == 0 then |es| else old(pos) - 1
    {
      hide *;
      PlacedMeans();
      var original := current;
      ghost var at := pos;
      RestartEntry(restartIndex);
      while RestartPoint(data, restartIndex) >= current
        invariant Built() && !corrupted && restartIndex < numRestarts && pos == at < |es| && d > 0
        invariant current == original == Offset(d, es, at)
        invariant EntryOf(restartIndex) <= |es| && EntryOf(0) == 0
        invariant RestartPoint(data, restartIndex) == Offset(d, es, EntryOf(restartIndex))
        decreases restartIndex
      {
        if restartIndex == 0 {
          NotBefore(0, at);
          current := restarts;
          restartIndex := numRestarts;
          pos := |es|;
          HoldsNothing();
          return;
        }
        restartIndex := restartIndex - 1;
        RestartEntry(restartIndex);
      }
      NotBefore(at, EntryOf(restartIndex));
      BuiltParts();
      SeekToRestartPoint(restartIndex);
      BetweenAtRestart(restartIndex);
      ParseUpTo(EntryOf(restartIndex), original, at - 1);
    }

    lemma NotBefore(i: nat, j: nat)
      requires Built() && d > 0 && i <= |es| && j <= |es|
      ensures i < j ==> Offset(d, es, i) < Offset(d, es, j)
      ensures i == j ==> Offset(d, es, i) == Offset(d, es, j)
      ensures j < i ==> Offset(d, es, j) < Offset(d, es, i)
    {
      hide *;
      if i < j { OffsetsGrow(d, es, i, j); }
      if j < i { OffsetsGrow(d, es, j, i); }
    }

    // ---- Seek ----

    /** The key at a restart point, which must not share bytes with a key before it. On any block. */
    method RestartKey(index: nat) returns (r: ParseStep, midKey: Bytes)
      requires Usable() && index < numRestarts
      modifies this
      ensures pos == old(pos)
      ensures var at := RestartPoint(data, index); var header := DecodeEntry(Rest(at));
        if header.None? || header.value.shared != 0 then r == Stopped && corrupted && current == restarts
        else
          var h := header.value;
          var p := at + h.length;
          && r != Stopped && unchanged(this)
          && (r == Overran <==> p + h.nonShared > restarts)
          && (r == Overran ==> h.nonShared + h.valueLength >= TWO_32)
          && (r == Arrived ==> midKey == data[p..p + h.nonShared])
    {
      hide RestartOffset, NumRestarts, ParseHeader, RestartPoint, ToUint32, DecodeEntry;
      var offset := RestartPoint(data, index);
      var header := DecodeEntry(Rest(offset));
      NothingDecodes();
      if header.Some? { CheckedIffNoOverflow(Rest(offset)); }
      if header.None? || header.value.shared != 0 {
        CorruptionError();
        return Stopped, [];
      }
      var p := offset + header.value.length;
      if p + header.value.nonShared > restarts {
        return Overran, [];
      }
      return Arrived, data[p..p + header.value.nonShared];
    }

    static lemma NothingDecodes()
      ensures DecodeEntry([]) == None
    {
    }

    /** On a built block, restart points are in order and give the keys of their entries. */
    lemma RestartKeyIs(k: nat)
      requires Built() && k < numRestarts && 0 < |es|
      ensures d > 0 && EntryOf(k) < |es|
      ensures var at := RestartPoint(data, k);
        && at < restarts <= |data|
        && var header := DecodeEntry(Rest(at));
        && header.Some? && header.value.shared == 0
        && var p := at + header.value.length;
        && p + header.value.nonShared <= restarts && data[p..p + header.value.nonShared] == es[EntryOf(k)].key
    {
      hide *;
      RestartEntry(k);
      var i := EntryOf(k);
      ReadyAtRestart(d, es, i, []);
      PartsOfEntry(i, []);
      RestIs(RestartPoint(data, k));
      var h := DecodeEntry(data[RestartPoint(data, k)..restarts]).value;
      var p := RestartPoint(data, k) + h.length;
      assert [][..0] + data[p..p + h.nonShared] == data[p..p + h.nonShared];
    }

    method Seek(target: Bytes)
      requires Placed() && TotalPreorder(cmp) && Sorted(cmp, KeysOf(es))
      modifies this
      ensures Placed() && pos == LowerBound(cmp, KeysOf(es), target)
    {
      hide *;
      PlacedMeans();
      BuiltParts();
      OnlyOneRestart(target);
      var left: nat, right: nat := 0, numRestarts - 1;
      // The last restart point with a key before the target, or the first.
      while left < right
        invariant left <= right < numRestarts && Built() && !corrupted
        invariant LeftBefore(left, target)
      {
        var mid := (left + right + 1) / 2;
        RestartKeyIs(mid);
        var r, midKey := RestartKey(mid);
        if r != Arrived {
          return;
        }
        if IsBefore(midKey, target) {
          left := mid;
          LeftMoved(mid, target);
        } else {
          right := mid - 1;
        }
      }

      // From there, the first key that is not before the target.
      RestartEntry(left);
      AllBefore(left, target);
      SeekToRestartPoint(left);
      BetweenAtRestart(left);
      ghost var k := EntryOf(left);
      while true
        invariant Between(k) && k <= |es| && BeforeUpTo(k, target)
        decreases |es| - k
      {
        var more := ParseEntry(k);
        SeekStops(k, target);
        if !more {
          return;
        }
        PlacedMeans();
        if !IsBefore(key, target) {
          return;
        }
        BetweenMeans(k + 1);
        k := k + 1;
      }
    }

    predicate IsBefore(key: Bytes, target: Bytes) {
      cmp(key, target) < 0
    }

    ghost predicate BeforeUpTo(k: nat, target: Bytes) {
      k <= |es| && forall i | 0 <= i < k :: IsBefore(es[i].key, target)
    }

    ghost predicate LeftBefore(left: nat, target: Bytes) {
      left > 0 ==> EntryOf(left) < |es| && IsBefore(es[EntryOf(left)].key, target)
    }

    lemma LeftMoved(mid: nat, target: Bytes)
      requires EntryOf(mid) < |es| && IsBefore(es[EntryOf(mid)].key, target)
      ensures LeftBefore(mid, target)
    {
    }

    /** With more than one restart point there are entries. */
    lemma OnlyOneRestart(target: Bytes)
      requires Built()
      ensures |es| == 0 ==> numRestarts == 1
      ensures LeftBefore(0, target)
    {
      hide Offset, Block;
      BuiltParts();
    }

    lemma AllBefore(left: nat, target: Bytes)
      requires TotalPreorder(cmp) && Sorted(cmp, KeysOf(es)) && LeftBefore(left, target)
      requires EntryOf(left) <= |es| && EntryOf(0) == 0
      ensures BeforeUpTo(EntryOf(left), target)
    {
      hide EntryOf;
      var i := EntryOf(left);
      if left > 0 {
        LowerBoundSplits(cmp, KeysOf(es), target);
        assert Before(cmp, KeysOf(es)[i], target);
        assert forall j | 0 <= j < i :: Before(cmp, KeysOf(es)[j], target);
      }
    }

    /** The scan stops at the lower bound. */
    lemma SeekStops(k: nat, target: Bytes)
      requires k <= |es| && BeforeUpTo(k, target)
      ensures (k == |es| || !IsBefore(es[k].key, target)) ==> LowerBound(cmp, KeysOf(es), target) == k
      ensures k < |es| && IsBefore(es[k].key, target) ==> BeforeUpTo(k + 1, target)
    {
      if k == |es| || !IsBefore(es[k].key, target) {
        LowerBoundUnique(cmp, KeysOf(es), target, k);
      }
    }
  }
}
