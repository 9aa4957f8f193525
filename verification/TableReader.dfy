/** A lookup in the bytes of a table, made of the steps by which table/table.cpp finds a filter: seek in a block,
    decode the handle that is found, read the block that it leads to. */
module TableReader {
  import opened Bytes
  import opened Coding
  import opened KeyOrder
  import opened BlockFormat
  import opened BlockIterator
  import opened Format
  import opened Table
  import opened TableBuilder

  /** No block is too large for 32-bit offsets. */
  predicate BlocksFit(t: Setup, p: Progress)
    requires t.d > 0
  {
    |Block(1, p.index)| < TWO_32 && forall i | 0 <= i < |p.written| :: |Block(t.d, p.written[i])| < TWO_32
  }

  /** The entries that the index knows of. */
  function Indexed(p: Progress): seq<Entry>
    requires |p.index| <= |p.written|
  {
    Flatten(p.written[..|p.index|])
  }

  /** From the bytes of the index block and of the file: an entry found is the first, among all entries, whose key
      is not before the target; and an entry with the target as its key is found. */
  method Find(t: Setup, ghost p: Progress, read: Varint64Reader, index: Bytes, file: Bytes, target: Bytes,
              mapped: bool, verify: bool) returns (found: Option<Entry>)
    requires IsSetup(t) && Sound(t, p) && BlocksFit(t, p) && ReadsVarints(read)
    requires t.kind == NO_COMPRESSION && |file| < UNSET
    requires index == Block(1, p.index) && file == p.file
    ensures |p.index| <= |p.written|
    ensures var es := Indexed(p);
      var n := KeysBefore(t.cmp, es, target);
      && n <= |es|
      && (found.Some? ==> n < |es| && found.value == es[n])
      && (n < |es| && t.cmp(es[n].key, target) == 0 ==> found.Some?)
  {
    ghost var i := KeysBefore(t.cmp, p.index, target);
    hide *;
    IndexMeans(t, p, target);
    Searched(t, p, target);
    BlockLedTo(t, p, read, target, Handle(0, 0), mapped, verify);
    BuiltIsReadable(1, p.index);
    var it := new BlockIterator(t.cmp, index, 1, p.index);
    it.Seek(target);
    var valid := it.Valid();
    if !valid {
      return None;
    }
    var input := new ByteString([]);
    input.data := it.Value();
    var handle := new BlockHandle(Handle(0, 0));
    var s := handle.DecodeFrom(read, input);
    var h := handle.Get();
    var verdict, contents := ReadBlock(Read(Slice(h, file), mapped), 0, h.size, verify);
    BuiltIsReadable(t.d, p.written[i]);
    var block := new BlockIterator(t.cmp, contents.data, t.d, p.written[i]);
    block.Seek(target);
    valid := block.Valid();
    if valid {
      var key := block.Key();
      var value := block.Value();
      found := Some(Entry(key, value));
    } else {
      found := None;
    }
  }

  lemma IndexMeans(t: Setup, p: Progress, target: Bytes)
    requires IsSetup(t) && Sound(t, p)
    ensures t.d > 0 && TotalPreorder(t.cmp) && |p.index| <= |p.written|
    ensures Sorted(t.cmp, KeysOf(p.index))
    ensures KeysBefore(t.cmp, p.index, target) == LowerBound(t.cmp, KeysOf(p.index), target) <= |p.index|
  {
    hide TotalPreorder, Separates, Separated, File, HandleAt, HandleBytes;
    IndexSizes(t.cmp, Blocks(p), p.index);
    IndexSorted(t.cmp, Blocks(p), p.index);
    StrictIsSorted(t.cmp, KeysOf(p.index));
  }

  /** What the searches come to. */
  lemma Searched(t: Setup, p: Progress, target: Bytes)
    requires IsSetup(t) && Sound(t, p)
    ensures |p.index| <= |p.written|
    ensures var i, es := KeysBefore(t.cmp, p.index, target), Indexed(p);
      var n := KeysBefore(t.cmp, es, target);
      && n <= |es|
      && if i < |p.index| then
           var k := KeysBefore(t.cmp, p.written[i], target);
           && k == LowerBound(t.cmp, KeysOf(p.written[i]), target)
           && Sorted(t.cmp, KeysOf(p.written[i]))
           && if k < |p.written[i]| then n < |es| && es[n] == p.written[i][k]
              else n == |es| || t.cmp(es[n].key, target) != 0
         else n == |es|
  {
    hide TotalPreorder, Separates, Separated, File, HandleAt, HandleBytes, Flatten, LowerBound;
    IndexSizes(t.cmp, Blocks(p), p.index);
    var n := |p.index|;
    SeparatedPrefix(t.cmp, Blocks(p), p.index, n);
    assert Blocks(p)[..n] == p.written[..n];
    PlaceInBlock(t.cmp, p.written[..n], p.index, target);
    var i := KeysBefore(t.cmp, p.index, target);
    if i < n {
      SortedBlock(t.cmp, p.written[..n], p.index, i);
    }
  }

  lemma SortedBlock(cmp: Comparator<Bytes>, blocks: seq<seq<Entry>>, index: seq<Entry>, i: nat)
    requires TotalPreorder(cmp) && Separated(cmp, blocks, index) && i < |blocks|
    ensures Sorted(cmp, KeysOf(blocks[i]))
  {
    assert IsBlock(cmp, blocks[i]);
    StrictIsSorted(cmp, KeysOf(blocks[i]));
  }

  /** The handle in the index entry that the search finds leads to the bytes of the block. */
  lemma BlockLedTo(t: Setup, p: Progress, read: Varint64Reader, target: Bytes, was: Handle, mapped: bool, verify: bool)
    requires IsSetup(t) && Sound(t, p) && BlocksFit(t, p) && ReadsVarints(read)
    requires t.kind == NO_COMPRESSION && |p.file| < UNSET
    ensures |Block(1, p.index)| < TWO_32
    ensures var i := KeysBefore(t.cmp, p.index, target);
      i < |p.index| ==>
        var r := DecodeHandle(read, p.index[i].value, was);
        && r.ok && InFile(r.handle, p.file) && i < |p.written|
        && Contents(Read(Slice(r.handle, p.file), mapped), r.handle.size, verify).data == Block(t.d, p.written[i])
        && |Block(t.d, p.written[i])| < TWO_32
  {
    hide KeysBefore, Sound, Examine, Contents, DecodeHandle, Block, ReadsVarints;
    var i := KeysBefore(t.cmp, p.index, target);
    if i < |p.index| { BlockReadBack(t, p, read, i, was, mapped, verify); }
  }
}
