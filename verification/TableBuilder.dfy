/** table/table_builder: entries go into data blocks; a block that is large enough is written to the file,
    and gets its index entry when the next key is known. */
module TableBuilder {
  import opened Bytes
  import opened Coding
  import opened KeyOrder
  import opened BytewiseComparator
  import opened DbFormat
  import opened Crc32cSpec
  import opened Crc32c
  import opened BlockFormat
  import opened BlockBuilder
  import opened BlockIterator
  import opened Format
  import opened Table

  datatype Setup = Setup(cmp: Comparator<Bytes>, separate: Separator<Bytes>, d: nat, kind: Byte)

  ghost predicate IsSetup(t: Setup) {
    t.d > 0 && TotalPreorder(t.cmp) && Separates(t.cmp, t.separate)
  }

  /** Tables over the byte-wise order, and over internal keys whatever the order of user keys. */
  lemma SetupsExist(d: nat, kind: Byte, cmp: Comparator<Bytes>, separate: Separator<Bytes>)
    requires d > 0 && TotalOrder(cmp) && Separates(cmp, separate)
    ensures IsSetup(Setup(Compare, BytewiseComparator.Separator, d, kind))
    ensures IsSetup(Setup(ExtendedOrder(cmp), ExtendedSeparator(cmp, separate), d, kind))
  {
    BytewiseOrder();
    ExtendedOrderIsTotal(cmp, separate);
  }

  /** How far the builder is: the contents of the blocks written, of the data block, and of the index
      block; the file; and the builder's other fields. */
  datatype Progress = Progress(written: seq<seq<Entry>>, entries: seq<Entry>, index: seq<Entry>, file: Bytes,
                               offset: nat, numEntries: nat, lastKey: Bytes, pending: bool, handle: Handle)

  /** The data block counts if it is not empty. */
  function Blocks(p: Progress): seq<seq<Entry>> {
    if p.entries == [] then p.written else p.written + [p.entries]
  }

  function All(p: Progress): seq<Entry> {
    Flatten(p.written) + p.entries
  }

  predicate IndexHasHandles(t: Setup, p: Progress)
    requires t.d > 0 && |p.index| <= |p.written|
  {
    forall i | 0 <= i < |p.index| :: p.index[i].value == HandleBytes(HandleAt(t.d, t.kind, p.written, i))
  }

  /** A block that was written and has no index entry yet. */
  predicate PendingIsLast(t: Setup, p: Progress)
    requires t.d > 0
  {
    && (p.pending <==> p.written != [] && p.entries == [])
    && (p.pending ==> p.handle == HandleAt(t.d, t.kind, p.written, |p.written| - 1))
    && |p.written| == |p.index| + (if p.pending then 1 else 0)
  }

  predicate Counts(p: Progress) {
    && p.numEntries == |All(p)|
    && (Blocks(p) != [] ==> p.numEntries > 0 && p.lastKey == LastKey(Blocks(p)[|Blocks(p)| - 1]))
  }

  /** Each index key is what the comparator puts between the last key of its block and the first key of the next. */
  predicate IndexHasSeparators(t: Setup, p: Progress) {
    && (forall i | 0 <= i < |Blocks(p)| :: |Blocks(p)[i]| > 0)
    && (p.index != [] ==> |p.index| < |Blocks(p)|)
    && forall i | 0 <= i < |p.index| && i + 1 < |Blocks(p)| ::
         p.index[i].key == t.separate(LastKey(Blocks(p)[i]), FirstKey(Blocks(p)[i + 1]))
  }

  ghost predicate Sound(t: Setup, p: Progress)
    requires IsSetup(t)
  {
    && p.file == File(t.d, t.kind, p.written) && p.offset == |p.file|
    && Separated(t.cmp, Blocks(p), p.index)
    && PendingIsLast(t, p) && IndexHasHandles(t, p) && IndexHasSeparators(t, p) && Counts(p)
  }

  const START := Progress([], [], [], [], 0, 0, [], false, Handle(UNSET, UNSET))

  lemma StartIsSound(t: Setup)
    requires IsSetup(t)
    ensures Sound(t, START) && All(START) == []
  {
  }

  // ---- One more entry ----

  function AfterAdd(t: Setup, p: Progress, e: Entry): Progress {
    p.(entries := p.entries + [e], numEntries := p.numEntries + 1, lastKey := e.key, pending := false,
       index := if p.pending then p.index + [Entry(t.separate(p.lastKey, e.key), HandleBytes(p.handle))] else p.index)
  }

  predicate IsNext(t: Setup, p: Progress, key: Bytes) {
    p.numEntries > 0 ==> Before(t.cmp, p.lastKey, key)
  }

  lemma AddIsSound(t: Setup, p: Progress, e: Entry)
    requires IsSetup(t) && Sound(t, p) && IsNext(t, p, e.key)
    ensures Sound(t, AfterAdd(t, p, e)) && All(AfterAdd(t, p, e)) == All(p) + [e]
  {
    hide HandleBytes, HandleAt, File, Flatten, Separated, TotalPreorder, LastKey, IndexHasSeparators;
    var q := AfterAdd(t, p, e);
    AddKeepsSeparators(t, p, e);
    assert All(q) == All(p) + [e];
    assert LastKey(q.entries) == e.key by { EndsWith(p.entries, e); }
    if p.entries != [] {
      BlockGrows(t.cmp, p.written, p.index, p.entries, e);
    } else if p.pending {
      assert Before(t.cmp, p.lastKey, e.key) && p.lastKey == LastKey(p.written[|p.written| - 1]);
      BlockStarts(t.cmp, p.written, p.index, q.index[|p.index|], e);
      assert q.entries == [e] && Blocks(q) == p.written + [[e]];
    } else {
      FirstBlockStarts(t.cmp, p.index, e);
      assert q.entries == [e] && Blocks(q) == [[e]];
    }
  }

  lemma AddKeepsSeparators(t: Setup, p: Progress, e: Entry)
    requires t.d > 0 && IndexHasSeparators(t, p) && |p.index| <= |p.written| && PendingIsLast(t, p) && Counts(p)
    ensures IndexHasSeparators(t, AfterAdd(t, p, e))
  {
    hide Flatten, LastKey, HandleAt, HandleBytes;
    var q := AfterAdd(t, p, e);
    var was, now := Blocks(p), Blocks(q);
    assert now == p.written + [p.entries + [e]];
    forall i | 0 <= i < |now| ensures |now[i]| > 0 {
      if i < |p.written| { assert now[i] == was[i]; }
    }
    forall i | 0 <= i < |q.index| && i + 1 < |now|
      ensures q.index[i].key == t.separate(LastKey(now[i]), FirstKey(now[i + 1]))
    {
      assert now[i] == p.written[i] == was[i];
      if i < |p.index| {
        assert FirstKey(now[i + 1]) == FirstKey(was[i + 1]);
      }
    }
  }

  lemma EndsWith(es: seq<Entry>, e: Entry)
    ensures LastKey(es + [e]) == e.key
  {
  }

  lemma BlockGrows(cmp: Comparator<Bytes>, blocks: seq<seq<Entry>>, index: seq<Entry>, es: seq<Entry>, e: Entry)
    requires TotalPreorder(cmp) && Separated(cmp, blocks + [es], index) && |index| <= |blocks|
    requires Before(cmp, LastKey(es), e.key)
    ensures Separated(cmp, blocks + [es + [e]], index)
  {
    var was, now := blocks + [es], blocks + [es + [e]];
    assert IsBlock(cmp, was[|blocks|]);
    LongerBlock(cmp, es, e);
    forall i | 0 <= i < |blocks| ensures now[i] == was[i] {}
    hide IsBlock, LastKey;
    forall i | 0 <= i < |index| && i + 1 < |now| ensures Before(cmp, index[i].key, FirstKey(now[i + 1])) {
      assert FirstKey(now[i + 1]) == FirstKey(was[i + 1]);
    }
  }

  lemma LongerBlock(cmp: Comparator<Bytes>, es: seq<Entry>, e: Entry)
    requires TotalPreorder(cmp) && IsBlock(cmp, es) && Before(cmp, LastKey(es), e.key)
    ensures IsBlock(cmp, es + [e]) && FirstKey(es + [e]) == FirstKey(es)
  {
    var keys := KeysOf(es + [e]);
    forall i, j | 0 <= i < j < |keys| ensures Before(cmp, keys[i], keys[j]) {
      if j < |es| {
        assert Before(cmp, KeysOf(es)[i], KeysOf(es)[j]);
      } else if i < |es| - 1 {
        assert Before(cmp, KeysOf(es)[i], KeysOf(es)[|es| - 1]);
        BeforeTransitive(cmp, keys[i], LastKey(es), e.key);
      }
    }
  }

  lemma BlockStarts(cmp: Comparator<Bytes>, blocks: seq<seq<Entry>>, index: seq<Entry>, entry: Entry, e: Entry)
    requires TotalPreorder(cmp) && Separated(cmp, blocks, index) && |blocks| == |index| + 1
    requires !Before(cmp, entry.key, LastKey(blocks[|index|])) && Before(cmp, entry.key, e.key)
    ensures Separated(cmp, blocks + [[e]], index + [entry])
  {
    hide LastKey;
    var now := blocks + [[e]];
    assert IsBlock(cmp, [e]);
    forall i | 0 <= i < |blocks| ensures now[i] == blocks[i] {}
    hide IsBlock;
  }

  lemma FirstBlockStarts(cmp: Comparator<Bytes>, index: seq<Entry>, e: Entry)
    requires Separated(cmp, [], index)
    ensures Separated(cmp, [[e]], index)
  {
  }

  // ---- One more block ----

  function AfterFlush(t: Setup, p: Progress): Progress
    requires t.d > 0
  {
    var block := Block(t.d, p.entries);
    p.(written := p.written + [p.entries], entries := [], file := p.file + StoredBlock(block, t.kind),
       offset := p.offset + |block| + BLOCK_TRAILER, pending := true, handle := Handle(p.offset, |block|))
  }

  lemma FlushIsSound(t: Setup, p: Progress)
    requires IsSetup(t) && Sound(t, p) && p.entries != []
    ensures Sound(t, AfterFlush(t, p)) && All(AfterFlush(t, p)) == All(p)
  {
    hide HandleBytes, HandleAt, Block, StoredBlock, Separated, Separates, TotalPreorder, File, Flatten, LastKey;
    var q := AfterFlush(t, p);
    assert IndexHasSeparators(t, q) by { assert Blocks(q) == Blocks(p); }
    hide IndexHasSeparators;
    FileGrows(t.d, t.kind, p.written, p.entries);
    FlattenGrows(p.written, p.entries);
    HandleOfLast(t.d, t.kind, p.written, p.entries);
    forall i | 0 <= i < |p.index|
      ensures q.index[i].value == HandleBytes(HandleAt(t.d, t.kind, q.written, i))
    {
      HandleStays(t.d, t.kind, p.written, p.entries, i);
    }
  }

  lemma FlattenGrows(blocks: seq<seq<Entry>>, block: seq<Entry>)
    ensures Flatten(blocks + [block]) == Flatten(blocks) + block
  {
    assert (blocks + [block])[..|blocks|] == blocks;
  }

  lemma HandleStays(d: nat, kind: Byte, blocks: seq<seq<Entry>>, block: seq<Entry>, i: nat)
    requires d > 0 && i < |blocks|
    ensures HandleAt(d, kind, blocks + [block], i) == HandleAt(d, kind, blocks, i)
  {
    assert (blocks + [block])[..i] == blocks[..i];
  }

  lemma HandleOfLast(d: nat, kind: Byte, blocks: seq<seq<Entry>>, block: seq<Entry>)
    requires d > 0
    ensures HandleAt(d, kind, blocks + [block], |blocks|) == Handle(|File(d, kind, blocks)|, |Block(d, block)|)
  {
    assert (blocks + [block])[..|blocks|] == blocks;
  }

  // ---- When a block is full ----

  /** A data block that is large enough to be written out. */
  predicate IsFull(t: Setup, size: nat, es: seq<Entry>)
    requires t.d > 0
  {
    |Block(t.d, es)| >= size
  }

  /** No run of entries at the front is. */
  predicate NeverFull(t: Setup, size: nat, es: seq<Entry>)
    requires t.d > 0
  {
    forall n | 0 < n <= |es| :: !IsFull(t, size, es[..n])
  }

  /** The data block has not been large enough so far, and no block was before its last entry. */
  predicate Sized(t: Setup, size: nat, p: Progress)
    requires t.d > 0
  {
    NeverFull(t, size, p.entries) && forall w | w in p.written :: JustEnded(t, size, w)
  }

  predicate JustEnded(t: Setup, size: nat, w: seq<Entry>)
    requires t.d > 0
  {
    w != [] && NeverFull(t, size, w[..|w| - 1])
  }

  /** So it is with every block written, and if the data block were written now. */
  predicate MayFlush(t: Setup, size: nat, p: Progress)
    requires t.d > 0
  {
    (p.entries != [] ==> JustEnded(t, size, p.entries)) && forall w | w in p.written :: JustEnded(t, size, w)
  }

  /** `Add` when nothing goes wrong: a block that is full is written out at once. */
  function AfterAddAndFlush(t: Setup, size: nat, p: Progress, e: Entry): Progress
    requires t.d > 0
  {
    var q := AfterAdd(t, p, e);
    if IsFull(t, size, q.entries) then AfterFlush(t, q) else q
  }

  lemma StartIsSized(t: Setup, size: nat)
    requires t.d > 0
    ensures Sized(t, size, START)
  {
  }

  /** A builder that is valid may always be flushed. */
  lemma SizedMayFlush(t: Setup, size: nat, p: Progress)
    requires t.d > 0 && Sized(t, size, p)
    ensures MayFlush(t, size, p)
  {
    hide IsFull;
    var es := p.entries;
    if es != [] {
      var front := es[..|es| - 1];
      forall n | 0 < n <= |front| ensures !IsFull(t, size, front[..n]) {
        assert front[..n] == es[..n];
      }
    }
  }

  lemma FlushKeepsSized(t: Setup, size: nat, p: Progress)
    requires t.d > 0 && MayFlush(t, size, p)
    ensures p.entries != [] ==> Sized(t, size, AfterFlush(t, p))
    ensures p.entries == [] ==> Sized(t, size, p)
  {
    hide IsFull, Block, StoredBlock;
  }

  lemma AddKeepsSized(t: Setup, size: nat, p: Progress, e: Entry)
    requires t.d > 0 && Sized(t, size, p)
    ensures var q := AfterAdd(t, p, e);
      && MayFlush(t, size, q) && (|Block(t.d, q.entries)| < size ==> Sized(t, size, q))
      && Sized(t, size, AfterAddAndFlush(t, size, p, e))
  {
    hide Block, StoredBlock, HandleBytes;
    var q, es, more := AfterAdd(t, p, e), p.entries, p.entries + [e];
    assert more[..|more| - 1] == es && more[..|more|] == more;
    forall n | 0 < n < |more| ensures !IsFull(t, size, more[..n]) {
      assert more[..n] == es[..n];
    }
    FlushKeepsSized(t, size, q);
  }

  /** A table of `es`, as far as `Add` builds it. */
  function AddAll(t: Setup, size: nat, es: seq<Entry>): Progress
    requires t.d > 0
  {
    if es == [] then START else AfterAddAndFlush(t, size, AddAll(t, size, es[..|es| - 1]), es[|es| - 1])
  }

  /** Whatever is added, every block written is the shortest run of entries that is large enough, the open one is not
      large enough yet, and together they hold the entries in order. */
  lemma {:induction false} BlocksAreShortest(t: Setup, size: nat, es: seq<Entry>)
    requires t.d > 0
    ensures var p := AddAll(t, size, es);
      && All(p) == es && NeverFull(t, size, p.entries)
      && forall w | w in p.written :: w != [] && |Block(t.d, w)| >= size && NeverFull(t, size, w[..|w| - 1])
  {
    hide AfterAddAndFlush, NeverFull, Block, All;
    if es == [] {
      NothingAdded(t, size);
    } else {
      var init, e := es[..|es| - 1], es[|es| - 1];
      var p := AddAll(t, size, init);
      BlocksAreShortest(t, size, init);
      AddKeepsSized(t, size, p, e);
      AddedTo(t, size, p, e);
      assert es == init + [e];
    }
  }

  lemma NothingAdded(t: Setup, size: nat)
    requires t.d > 0
    ensures All(START) == [] && NeverFull(t, size, [])
  {
  }

  lemma AddedTo(t: Setup, size: nat, p: Progress, e: Entry)
    requires t.d > 0
    ensures var q, es := AfterAddAndFlush(t, size, p, e), p.entries + [e];
      && q == (if |Block(t.d, es)| >= size then AfterFlush(t, AfterAdd(t, p, e)) else AfterAdd(t, p, e))
      && All(q) == All(p) + [e]
      && q.written == (if |Block(t.d, es)| >= size then p.written + [es] else p.written)
      && q.entries == (if |Block(t.d, es)| >= size then [] else es)
  {
    hide Block, StoredBlock, HandleBytes, Flatten;
    FlattenGrows(p.written, p.entries + [e]);
    assert Flatten(p.written) + (p.entries + [e]) == Flatten(p.written) + p.entries + [e];
  }

  /** If the keys ascend, file, index and blocks agree at every moment. */
  lemma {:induction false} RunIsSound(t: Setup, size: nat, es: seq<Entry>)
    requires IsSetup(t) && StrictlySorted(t.cmp, KeysOf(es))
    ensures t.d > 0 && Sound(t, AddAll(t, size, es))
    ensures var p := AddAll(t, size, es);
      p.numEntries == |es| && (es != [] ==> p.lastKey == es[|es| - 1].key)
  {
    SetupParts(t);
    hide Sound, IsSetup, Block, StoredBlock, HandleBytes;
    if es == [] {
      StartIsSound(t);
    } else {
      var init, e := es[..|es| - 1], es[|es| - 1];
      forall i, j | 0 <= i < j < |init| ensures Before(t.cmp, KeysOf(init)[i], KeysOf(init)[j]) {
        assert Before(t.cmp, KeysOf(es)[i], KeysOf(es)[j]);
      }
      RunIsSound(t, size, init);
      if init != [] { assert Before(t.cmp, KeysOf(es)[|es| - 2], KeysOf(es)[|es| - 1]); }
      hide AfterAddAndFlush;
      StepIsSound(t, size, AddAll(t, size, init), e);
    }
  }

  lemma StepIsSound(t: Setup, size: nat, p: Progress, e: Entry)
    requires IsSetup(t) && Sound(t, p) && IsNext(t, p, e.key) && t.d > 0
    ensures var q := AfterAddAndFlush(t, size, p, e);
      Sound(t, q) && q.numEntries == p.numEntries + 1 && q.lastKey == e.key
  {
    hide Sound, IsSetup, IsNext, All, Block, StoredBlock, HandleBytes;
    AddIsSound(t, p, e);
    if IsFull(t, size, p.entries + [e]) { FlushIsSound(t, AfterAdd(t, p, e)); }
  }

  lemma AfterAddIs(t: Setup, p: Progress, e: Entry)
    ensures AfterAdd(t, p, e)
         == Progress(p.written, p.entries + [e],
                     if p.pending then p.index + [Entry(t.separate(p.lastKey, e.key), HandleBytes(p.handle))] else p.index,
                     p.file, p.offset, p.numEntries + 1, e.key, false, p.handle)
  {
  }

  /** What `Add` asserts. */
  lemma KeyIsNext(t: Setup, p: Progress, key: Bytes)
    requires IsSetup(t) && (p.numEntries > 0 ==> t.cmp(key, p.lastKey) > 0)
    ensures t.d > 0 && IsNext(t, p, key)
  {
    hide Separates;
  }

  lemma SetupParts(t: Setup)
    requires IsSetup(t)
    ensures t.d > 0
  {
  }

  // ---- The builder ----

  /** What the operating system answers to the two appends and to the flush of one block. */
  datatype Outcomes = Outcomes(data: Status, trailer: Status, flush: Status)

  function WriteStatus(io: Outcomes): Status {
    if io.data != OK then io.data else io.trailer
  }

  function BlockStatus(io: Outcomes): Status {
    if WriteStatus(io) != OK then WriteStatus(io) else io.flush
  }

  /** The first error of the three. */
  lemma StatusIsFirstError(io: Outcomes)
    ensures BlockStatus(io) == OK <==> io == Outcomes(OK, OK, OK)
    ensures io.data != OK ==> BlockStatus(io) == io.data
    ensures io.data == OK && io.trailer != OK ==> BlockStatus(io) == io.trailer
  {
  }

  /** What reaches the file of a block and its trailer. */
  function Appended(data: Bytes, kind: Byte, io: Outcomes): Bytes {
    if io.data != OK then [] else if io.trailer != OK then data else StoredBlock(data, kind)
  }

  class TableBuilder {
    const setup: Setup
    const blockSize: nat
    var file: Bytes
    var offset: nat
    var status: Status
    const dataBlock: BlockBuilder
    const indexBlock: BlockBuilder
    var lastKey: Bytes
    var numEntries: nat
    var closed: bool
    var pendingIndexEntry: bool
    var pendingHandle: Handle
    ghost var written: seq<seq<Entry>>

    ghost function Abstract(): Progress
      reads this, dataBlock, indexBlock
    {
      Progress(written, dataBlock.entries, indexBlock.entries, file, offset, numEntries, lastKey, pendingIndexEntry,
               pendingHandle)
    }

    ghost predicate Valid()
      reads this, dataBlock, indexBlock
    {
      Consistent() && (status == OK ==> Sized(setup, blockSize, Abstract()))
    }

    /** After an error only the blocks being built are described. */
    ghost predicate Consistent()
      reads this, dataBlock, indexBlock
    {
      && IsSetup(setup) && dataBlock != indexBlock
      && dataBlock.Valid() && !dataBlock.finished && dataBlock.interval == setup.d
      && indexBlock.Valid() && !indexBlock.finished && indexBlock.interval == 1
      && (pendingIndexEntry ==> dataBlock.entries == [] && IsSet(pendingHandle))
      && (status == OK ==> Sound(setup, Abstract()))
    }

    constructor (setup: Setup, blockSize: nat)
      requires IsSetup(setup)
      ensures Valid() && status == OK && !closed && fresh(dataBlock) && fresh(indexBlock)
      ensures this.setup == setup && this.blockSize == blockSize && Abstract() == START
    {
      this.setup, this.blockSize := setup, blockSize;
      file, offset, status, lastKey, numEntries, closed := [], 0, OK, [], 0, false;
      pendingIndexEntry, pendingHandle, written := false, Handle(UNSET, UNSET), [];
      dataBlock := new BlockBuilder(setup.d);
      indexBlock := new BlockBuilder(1);
      new;
      hide Sound, IsSetup, All, dataBlock.Valid, Sized;
      StartIsSound(setup);
      StartIsSized(setup, blockSize);
      assert Abstract() == START;
    }

    /** `WriteRawBlock`. An append that fails leaves nothing in the file. */
    method WriteRawBlock(data: Bytes, kind: Byte, io: Outcomes) returns (handle: Handle)
      modifies `file, `offset, `status
      ensures handle == Handle(old(offset), |data|) && status == WriteStatus(io)
      ensures file == old(file) + Appended(data, kind, io)
      ensures offset == old(offset) + (if status == OK then |data| + BLOCK_TRAILER else 0)
    {
      hide Crc, Mask, WordBytes;
      handle := Handle(offset, |data|);
      status := io.data;
      if status == OK {
        file := file + data;
        var crc := Value(0, data);
        crc := Extend(crc, 0, [kind]);
        CrcAppend(0, data, [kind]);
        var trailer := [kind] + WordBytes(Mask(crc));
        status := io.trailer;
        if status == OK {
          file := file + trailer;
          offset := offset + |data| + BLOCK_TRAILER;
        }
      }
    }

    /** `WriteBlock`: with or without compression configured, the bytes are stored as they are. */
    method WriteBlock(block: BlockBuilder, io: Outcomes) returns (handle: Handle)
      requires block.Valid() && !block.finished && status == OK
      modifies `file, `offset, `status, block
      ensures block.Valid() && !block.finished && block.entries == []
      ensures var raw := Block(block.interval, old(block.entries));
        && handle == Handle(old(offset), |raw|) && status == WriteStatus(io)
        && file == old(file) + Appended(raw, setup.kind, io)
        && (status == OK ==> file == old(file) + StoredBlock(raw, setup.kind))
        && offset == old(offset) + (if status == OK then |raw| + BLOCK_TRAILER else 0)
    {
      hide Block, StoredBlock;
      var raw := block.Finish();
      handle := WriteRawBlock(raw, setup.kind, io);
      block.Reset();
    }

    /** The data block has room in a file of less than 2^64 - 1 bytes. */
    ghost predicate HasRoom(entries: seq<Entry>)
      reads this
      requires setup.d > 0
    {
      offset + |Block(setup.d, entries)| + BLOCK_TRAILER < UNSET
    }

    method Flush(io: Outcomes)
      requires Consistent() && !closed && HasRoom(dataBlock.entries)
      requires status == OK ==> MayFlush(setup, blockSize, Abstract())
      modifies this, dataBlock
      ensures Valid() && !closed
      ensures old(status) != OK || old(dataBlock.entries) == [] ==>
        status == old(status) && Abstract() == old(Abstract())
      ensures old(status) == OK && old(dataBlock.entries) != [] ==>
        && status == BlockStatus(io)
        && file == old(file) + Appended(Block(setup.d, old(dataBlock.entries)), setup.kind, io)
        && (status == OK ==> Abstract() == AfterFlush(setup, old(Abstract())))
      ensures status == OK ==> All(Abstract()) == All(old(Abstract()))
      ensures numEntries == old(numEntries) && lastKey == old(lastKey)
    {
      hide Block, StoredBlock, Sound, TotalPreorder, Separates, Sized, MayFlush, NeverFull, Appended, All, dataBlock.Valid;
      if status != OK {
        return;
      }
      var empty := dataBlock.Empty();
      ghost var was, entries := Abstract(), dataBlock.entries;
      FlushKeepsSized(setup, blockSize, was);
      hide Sized, MayFlush, NeverFull, Appended;
      if empty {
        return;
      }
      assert !pendingIndexEntry;
      FlushIsSound(setup, was);
      pendingHandle := WriteBlock(dataBlock, io);
      if status == OK {
        written := written + [entries];
        pendingIndexEntry := true;
        status := io.flush;
        assert Abstract() == AfterFlush(setup, was);
        hide AfterFlush;
      }
    }

    /** The first part of `Add`: the index entry of the last block written. */
    method AddIndexEntry(key: Bytes)
      requires IsSet(pendingHandle) && indexBlock.Valid() && !indexBlock.finished
      modifies `lastKey, `pendingIndexEntry, indexBlock
      ensures indexBlock.Valid() && !indexBlock.finished && !pendingIndexEntry
      ensures lastKey == setup.separate(old(lastKey), key)
      ensures indexBlock.entries == old(indexBlock.entries) + [Entry(lastKey, HandleBytes(pendingHandle))]
    {
      hide HandleBytes, indexBlock.Valid;
      lastKey := setup.separate(lastKey, key);
      var encoding := new ByteString([]);
      var handle := new BlockHandle(pendingHandle);
      handle.EncodeTo(encoding);
      assert encoding.data == HandleBytes(pendingHandle);
      indexBlock.Add(lastKey, encoding.data);
      pendingIndexEntry := false;
    }

    method Add(key: Bytes, value: Bytes, io: Outcomes)
      requires Valid() && !closed
      requires numEntries > 0 ==> setup.cmp(key, lastKey) > 0
      requires HasRoom(dataBlock.entries + [Entry(key, value)])
      modifies this, dataBlock, indexBlock
      ensures Valid() && !closed
      ensures status == OK ==> old(status) == OK && All(Abstract()) == All(old(Abstract())) + [Entry(key, value)]
      ensures
        var es := old(dataBlock.entries) + [Entry(key, value)];
        var full := |Block(setup.d, es)| >= blockSize;
        && status == (if old(status) == OK && full then BlockStatus(io) else old(status))
        && (status == OK ==>
              && written == old(written) + (if full then [es] else [])
              && (dataBlock.entries == [] <==> full) && (!full ==> dataBlock.entries == es)
              && Abstract() == AfterAddAndFlush(setup, blockSize, old(Abstract()), Entry(key, value)))
        && file == old(file)
                   + (if old(status) == OK && full then Appended(Block(setup.d, es), setup.kind, io) else [])
      ensures numEntries == old(numEntries) + 1 && lastKey == key
    {
      hide *;
      ghost var e := Entry(key, value);
      ValidParts();
      RoomFor(dataBlock.entries + [e]);
      AbstractParts();
      KeyIsNext(setup, Abstract(), key);
      if status == OK {
        AddIsSound(setup, Abstract(), e);
        AddKeepsSized(setup, blockSize, Abstract(), e);
      }
      AddedTo(setup, blockSize, Abstract(), e);
      ghost var next := AfterAdd(setup, Abstract(), e);
      AfterAddIs(setup, Abstract(), e);
      if pendingIndexEntry {
        var empty := dataBlock.Empty();
        assert empty;
        AddIndexEntry(key);
      }
      lastKey := key;
      numEntries := numEntries + 1;
      dataBlock.Add(key, value);
      AbstractParts();
      assert Abstract() == next;
      IsConsistent();
      RoomFor(dataBlock.entries);
      var estimate := dataBlock.CurrentSizeEstimate();
      if estimate >= blockSize {
        Flush(io);
      } else {
        IsValid();
      }
      AbstractParts();
    }

    lemma ValidParts()
      requires Valid()
      ensures Consistent() && IsSetup(setup) && setup.d > 0 && dataBlock != indexBlock
      ensures dataBlock.Valid() && !dataBlock.finished && dataBlock.interval == setup.d
      ensures indexBlock.Valid() && !indexBlock.finished && indexBlock.interval == 1
      ensures pendingIndexEntry ==> dataBlock.entries == [] && IsSet(pendingHandle)
      ensures status == OK ==> Sound(setup, Abstract()) && Sized(setup, blockSize, Abstract())
    {
      hide Sound, Sized, IsSet, dataBlock.Valid, TotalPreorder, Separates;
    }

    lemma IsConsistent()
      requires IsSetup(setup) && dataBlock != indexBlock
      requires dataBlock.Valid() && !dataBlock.finished && dataBlock.interval == setup.d
      requires indexBlock.Valid() && !indexBlock.finished && indexBlock.interval == 1
      requires pendingIndexEntry ==> dataBlock.entries == [] && IsSet(pendingHandle)
      requires status == OK ==> Sound(setup, Abstract())
      ensures Consistent()
    {
      hide Sound, IsSet, dataBlock.Valid, IsSetup;
    }

    lemma IsValid()
      requires Consistent() && setup.d > 0 && (status == OK ==> Sized(setup, blockSize, Abstract()))
      ensures Valid()
    {
    }

    lemma AbstractParts()
      ensures Abstract() == Progress(written, dataBlock.entries, indexBlock.entries, file, offset, numEntries, lastKey,
                                     pendingIndexEntry, pendingHandle)
    {
    }

    lemma RoomFor(entries: seq<Entry>)
      requires setup.d > 0
      ensures HasRoom(entries) <==> offset + |Block(setup.d, entries)| + BLOCK_TRAILER < UNSET
    {
    }
  }

  // ---- Reading the table ----

  lemma SeparatedPrefix(cmp: Comparator<Bytes>, blocks: seq<seq<Entry>>, index: seq<Entry>, n: nat)
    requires Separated(cmp, blocks, index) && |index| <= n <= |blocks|
    ensures Separated(cmp, blocks[..n], index)
  {
  }

  /** At every moment while a table is built, for every target: the index search and the search of the block
      it leads to find the place of the target among the indexed entries, and the handle in the index
      leads, through the file and the checksum, to that block - exactly if blocks are stored as
      uncompressed ones. */
  lemma TableLookup(t: Setup, p: Progress, read: Varint64Reader, target: Bytes, was: Handle, mapped: bool, verify: bool)
    requires IsSetup(t) && Sound(t, p) && ReadsVarints(read) && |p.file| < UNSET
    requires t.kind == NO_COMPRESSION || t.kind == SNAPPY_COMPRESSION
    ensures var i, indexed := KeysBefore(t.cmp, p.index, target), p.written[..|p.index|];
      && KeysBefore(t.cmp, Flatten(indexed), target)
         == (if i < |indexed| then |Flatten(indexed[..i])| + KeysBefore(t.cmp, indexed[i], target)
             else |Flatten(indexed)|)
      && (i < |indexed| ==>
            var parsed := DecodeHandle(read, p.index[i].value, was);
            && parsed.ok && InFile(parsed.handle, p.file)
            && var h := parsed.handle;
               var outcome := Read(Slice(h, p.file), mapped);
               && Examine(outcome, h.size, verify) == Answer(OK)
               && (Contents(outcome, h.size, verify).data == Block(t.d, indexed[i]) <==> t.kind == NO_COMPRESSION))
  {
    hide KeysBefore, Block, StoredBlock, HandleBytes, Separated, TotalPreorder, Separates, Examine, Contents, File,
      Flatten, ReadsVarints, DecodeHandle, HandleAt;
    var n := |p.index|;
    var i := KeysBefore(t.cmp, p.index, target);
    assert p.written == Blocks(p)[..|p.written|];
    SeparatedPrefix(t.cmp, Blocks(p), p.index, n);
    assert Blocks(p)[..n] == p.written[..n];
    TwoLevelSeek(t.cmp, p.written[..n], p.index, target);
    if i < n {
      BlockReadBack(t, p, read, i, was, mapped, verify);
    }
  }

  lemma BlockReadBack(t: Setup, p: Progress, read: Varint64Reader, i: nat, was: Handle, mapped: bool, verify: bool)
    requires IsSetup(t) && Sound(t, p) && ReadsVarints(read) && |p.file| < UNSET && i < |p.index|
    requires t.kind == NO_COMPRESSION || t.kind == SNAPPY_COMPRESSION
    ensures var parsed := DecodeHandle(read, p.index[i].value, was);
      && i < |p.written| && parsed.ok && InFile(parsed.handle, p.file)
      && var h := parsed.handle;
         var outcome := Read(Slice(h, p.file), mapped);
         && Examine(outcome, h.size, verify) == Answer(OK)
         && (Contents(outcome, h.size, verify).data == Block(t.d, p.written[i]) <==> t.kind == NO_COMPRESSION)
  {
    hide Block, StoredBlock, HandleBytes, Separated, TotalPreorder, Separates, Examine, Contents, File, ReadsVarints,
      DecodeHandle;
    var h := HandleAt(t.d, t.kind, p.written, i);
    HandleLeadsToBlock(t.d, t.kind, p.written, i, []);
    assert File(t.d, t.kind, p.written) + [] == p.file;
    HandleRoundTrip(read, h, [], was);
    assert HandleBytes(h) + [] == HandleBytes(h);
    StoredBlockReadBackIff(Block(t.d, p.written[i]), t.kind, mapped, verify);
    BlockIs(t.d, p.written[i]);
  }
}
