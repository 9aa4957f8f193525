/** table/format: handles, the footer, and blocks guarded by a checksum. */
module Format {
  import opened Arithmetic
  import opened Bytes
  import opened Coding
  import opened Crc32cSpec
  import opened Crc32c

  datatype Status =
    | OK
    | NotFound(message: string)
    | Corruption(message: string)
    | NotSupported(message: string)
    | InvalidArgument(message: string)
    | IOError(message: string)

  // ---- Handles ----

  const UNSET: nat := 0xffff_ffff_ffff_ffff
  const MAX_ENCODED_HANDLE: nat := 20

  /** Where a block lies in the file. */
  datatype Handle = Handle(offset: nat, size: nat)

  predicate IsSet(h: Handle) {
    h.offset < UNSET && h.size < UNSET
  }

  function HandleBytes(h: Handle): Bytes {
    Varint(h.offset) + Varint(h.size)
  }

  /** What `BlockHandle::DecodeFrom` leaves: whether it succeeded, the handle, and the input. */
  datatype HandleDecoding = HandleDecoding(ok: bool, handle: Handle, rest: Bytes)

  /** A reader that fails changes nothing, as `GetVarint32` does not. */
  function DecodeHandle(read: Varint64Reader, data: Bytes, was: Handle): HandleDecoding
    requires ReadsVarints(read)
  {
    match read(data)
    case None => HandleDecoding(false, was, data)
    case Some(offset) =>
      var rest := data[offset.length..];
      match read(rest)
      case None => HandleDecoding(false, Handle(offset.value, was.size), rest)
      case Some(size) => HandleDecoding(true, Handle(offset.value, size.value), rest[size.length..])
  }

  /** A handle is read exactly if two numbers stand there, one behind the other. */
  lemma HandleReadIff(read: Varint64Reader, data: Bytes, was: Handle)
    requires ReadsVarints(read)
    ensures DecodeHandle(read, data, was).ok
       <==> read(data).Some? && read(data[read(data).value.length..]).Some?
    ensures read(data).None? ==> DecodeHandle(read, data, was).handle == was
  {
  }

  lemma HandleRoundTrip(read: Varint64Reader, h: Handle, rest: Bytes, was: Handle)
    requires ReadsVarints(read) && IsSet(h)
    ensures DecodeHandle(read, HandleBytes(h) + rest, was) == HandleDecoding(true, h, rest)
  {
    hide Varint;
    var first, second := Varint(h.offset), Varint(h.size);
    assert HandleBytes(h) + rest == first + (second + rest);
    assert (first + (second + rest))[|first|..] == second + rest;
    assert (second + rest)[|second|..] == rest;
  }

  lemma HandleFits(h: Handle)
    requires IsSet(h)
    ensures |HandleBytes(h)| <= MAX_ENCODED_HANDLE
  {
    VarintSizes(h.offset);
    VarintSizes(h.size);
  }

  class BlockHandle {
    var offset: nat
    var size: nat

    constructor (h: Handle)
      ensures Get() == h
    {
      offset, size := h.offset, h.size;
    }

    function Get(): Handle
      reads this
    {
      Handle(offset, size)
    }

    method EncodeTo(dst: ByteString)
      requires IsSet(Get())
      modifies dst
      ensures dst.data == old(dst.data) + HandleBytes(Get())
    {
      PutVarint64(dst, offset);
      PutVarint64(dst, size);
    }

    method DecodeFrom(read: Varint64Reader, input: ByteString) returns (s: Status)
      requires ReadsVarints(read)
      modifies this, input
      ensures var r := DecodeHandle(read, old(input.data), old(Get()));
        && s == (if r.ok then OK else Corruption("bad block handle"))
        && Get() == r.handle && input.data == r.rest
    {
      var first := read(input.data);
      if first.Some? {
        offset := first.value.value;
        input.data := input.data[first.value.length..];
        var second := read(input.data);
        if second.Some? {
          size := second.value.value;
          input.data := input.data[second.value.length..];
          return OK;
        }
      }
      s := Corruption("bad block handle");
    }
  }

  // ---- The footer ----

  const TABLE_MAGIC_NUMBER: nat := 0xdb47_7524_8b80_fb57
  const ENCODED_FOOTER: nat := 48

  function Zeros(n: nat): (bytes: Bytes)
    ensures |bytes| == n
  {
    seq(n, _ => 0)
  }

  /** `std::string::resize`. */
  function Resize(s: Bytes, n: nat): (r: Bytes)
    ensures |r| == n
  {
    if n <= |s| then s[..n] else s + Zeros(n - |s|)
  }

  /** Two handles, zeros up to 40 bytes, and the magic number, low word first. */
  function FooterBytes(metaindex: Handle, index: Handle): (bytes: Bytes)
    requires IsSet(metaindex) && IsSet(index)
    ensures |bytes| == ENCODED_FOOTER
  {
    var handles := HandleBytes(metaindex) + HandleBytes(index);
    HandleFits(metaindex);
    HandleFits(index);
    handles + Zeros(40 - |handles|) + Fixed64(TABLE_MAGIC_NUMBER)
  }

  datatype Handles = Handles(metaindex: Handle, index: Handle)

  /** What `Footer::DecodeFrom` leaves. */
  datatype FooterDecoding = FooterDecoding(status: Status, handles: Handles, rest: Bytes)

  function DecodeFooter(read: Varint64Reader, data: Bytes, was: Handles): FooterDecoding
    requires ReadsVarints(read) && |data| >= ENCODED_FOOTER
  {
    if FixedValue(data[40..48]) != TABLE_MAGIC_NUMBER then
      FooterDecoding(Corruption("not an sstable (bad magic number)"), was, data)
    else
      var m := DecodeHandle(read, data, was.metaindex);
      if !m.ok then FooterDecoding(Corruption("bad block handle"), Handles(m.handle, was.index), m.rest)
      else
        var i := DecodeHandle(read, m.rest, was.index);
        if i.ok then FooterDecoding(OK, Handles(m.handle, i.handle), data[ENCODED_FOOTER..])
        else FooterDecoding(Corruption("bad block handle"), Handles(m.handle, i.handle), i.rest)
  }

  /** A footer is read back from its bytes, whatever follows them, and what follows is left. */
  lemma FooterRoundTrip(read: Varint64Reader, metaindex: Handle, index: Handle, suffix: Bytes, was: Handles)
    requires ReadsVarints(read) && IsSet(metaindex) && IsSet(index)
    ensures DecodeFooter(read, FooterBytes(metaindex, index) + suffix, was)
         == FooterDecoding(OK, Handles(metaindex, index), suffix)
  {
    hide Fixed64, FixedValue, HandleBytes, DecodeHandle;
    var data := FooterBytes(metaindex, index) + suffix;
    var m, i := HandleBytes(metaindex), HandleBytes(index);
    HandleFits(metaindex);
    HandleFits(index);
    var rest := Zeros(40 - |m| - |i|) + Fixed64(TABLE_MAGIC_NUMBER) + suffix;
    assert data == m + (i + rest);
    HandleRoundTrip(read, metaindex, i + rest, was.metaindex);
    HandleRoundTrip(read, index, rest, was.index);
    assert data[40..48] == Fixed64(TABLE_MAGIC_NUMBER);
    assert data[ENCODED_FOOTER..] == suffix;
    Fixed64RoundTrip(TABLE_MAGIC_NUMBER);
  }

  /** The magic number as it stands in the file; any other eight bytes in its place are refused, and nothing else is
      looked at. */
  lemma OtherMagicRefused(read: Varint64Reader, data: Bytes, was: Handles)
    requires ReadsVarints(read) && |data| >= 48
    ensures var magic: Bytes := [0x57, 0xfb, 0x80, 0x8b, 0x24, 0x75, 0x47, 0xdb];
      var bad := Corruption("not an sstable (bad magic number)");
      data[40..48] != magic <==> DecodeFooter(read, data, was) == FooterDecoding(bad, was, data)
  {
    MagicBytes();
    Fixed64RoundTrip(TABLE_MAGIC_NUMBER);
    FixedOfValue(data[40..48]);
    hide Fixed, FixedValue, DecodeHandle;
  }

  /** Behind the right magic number a footer is read exactly if two handles are, that is four numbers. */
  lemma FooterReadIff(read: Varint64Reader, data: Bytes, was: Handles)
    requires ReadsVarints(read) && |data| >= 48
    requires data[40..48] == [0x57, 0xfb, 0x80, 0x8b, 0x24, 0x75, 0x47, 0xdb]
    ensures var r := DecodeFooter(read, data, was);
      var m := DecodeHandle(read, data, was.metaindex);
      && r.status == (if m.ok && DecodeHandle(read, m.rest, was.index).ok then OK else Corruption("bad block handle"))
      && (r.status == OK ==>
            && r.handles == Handles(m.handle, DecodeHandle(read, m.rest, was.index).handle)
            && r.rest == data[48..])
  {
    MagicBytes();
    Fixed64RoundTrip(TABLE_MAGIC_NUMBER);
    hide Fixed, FixedValue, DecodeHandle;
  }

  lemma MagicBytes()
    ensures ENCODED_FOOTER == 48
    ensures Fixed64(TABLE_MAGIC_NUMBER) == [0x57, 0xfb, 0x80, 0x8b, 0x24, 0x75, 0x47, 0xdb]
  {
    FixedSplits(0xdb47_7524_8b80_fb57, 7);
    FixedSplits(0xdb_4775_248b_80fb, 6);
    FixedSplits(0xdb47_7524_8b80, 5);
    FixedSplits(0xdb_4775_248b, 4);
    FixedSplits(0xdb47_7524, 3);
    FixedSplits(0xdb_4775, 2);
    FixedSplits(0xdb47, 1);
    FixedSplits(0xdb, 0);
    hide Fixed;
  }

  /** The last eight of the 48 bytes of a footer. */
  lemma FooterEndsInMagic(metaindex: Handle, index: Handle)
    requires IsSet(metaindex) && IsSet(index)
    ensures |FooterBytes(metaindex, index)| == 48
    ensures FooterBytes(metaindex, index)[40..48] == [0x57, 0xfb, 0x80, 0x8b, 0x24, 0x75, 0x47, 0xdb]
  {
    MagicBytes();
    hide HandleBytes, Fixed64;
  }

  /** The parts in their places: offset before size, metaindex before index, zeros, and the magic number. */
  lemma FooterExample()
    ensures HandleBytes(Handle(1, 300)) == [1, 0xac, 2] && HandleBytes(Handle(4, 5)) == [4, 5]
    ensures FooterBytes(Handle(1, 300), Handle(4, 5))
         == [1, 0xac, 2, 4, 5] + Zeros(35) + [0x57, 0xfb, 0x80, 0x8b, 0x24, 0x75, 0x47, 0xdb]
  {
    MagicBytes();
    SmallVarints();
    hide Varint, Fixed64;
  }

  lemma SmallVarints()
    ensures Varint(1) == [1] && Varint(4) == [4] && Varint(5) == [5] && Varint(300) == [0xac, 2]
  {
    assert Varint(2) == [2];
  }

  /** A footer behind as little as one byte is not read back. */
  lemma FooterAfterByteLost(read: Varint64Reader, was: Handles)
    requires ReadsVarints(read)
    ensures var h := Handle(1, 1);
      var bytes := Resize([0] + HandleBytes(h) + HandleBytes(h), 40) + Fixed64(TABLE_MAGIC_NUMBER);
      |bytes| == ENCODED_FOOTER && DecodeFooter(read, bytes, was).handles.metaindex != h
  {
    var h := Handle(1, 1);
    var bytes := Resize([0] + HandleBytes(h) + HandleBytes(h), 40) + Fixed64(TABLE_MAGIC_NUMBER);
    SmallHandles();
    Fixed64RoundTrip(TABLE_MAGIC_NUMBER);
    hide *;
    ResizedHandles();
    var magic := Fixed64(TABLE_MAGIC_NUMBER);
    var front := [1, 1, 1] + Zeros(35);
    MagicBehind([0, 1], front, magic);
    FirstHandle(read, Handle(0, 1), front + magic, was);
  }

  lemma MagicBehind(a: Bytes, b: Bytes, magic: Bytes)
    requires |a| + |b| == 40 && |magic| == 8
    ensures (a + b) + magic == a + (b + magic) && (a + (b + magic))[40..48] == magic
  {
  }

  lemma ResizedHandles()
    ensures Resize([0] + [1, 1] + [1, 1], 40) == [0, 1] + ([1, 1, 1] + Zeros(35))
  {
    assert [0] + [1, 1] + [1, 1] == [0, 1] + [1, 1, 1];
    hide Zeros;
  }

  lemma FirstHandle(read: Varint64Reader, h: Handle, rest: Bytes, was: Handles)
    requires ReadsVarints(read) && IsSet(h)
    requires var data := HandleBytes(h) + rest;
      |data| >= ENCODED_FOOTER && FixedValue(data[40..48]) == TABLE_MAGIC_NUMBER
    ensures DecodeFooter(read, HandleBytes(h) + rest, was).handles.metaindex == h
  {
    hide HandleBytes, DecodeHandle, FixedValue, ReadsVarints;
    HandleRoundTrip(read, h, rest, was.metaindex);
  }

  lemma SmallHandles()
    ensures HandleBytes(Handle(0, 1)) == [0, 1] && HandleBytes(Handle(1, 1)) == [1, 1]
  {
  }

  class Footer {
    var metaindex: BlockHandle
    var index: BlockHandle

    ghost predicate Valid()
      reads this
    {
      metaindex != index
    }

    constructor (metaindex: Handle, index: Handle)
      ensures Valid() && fresh(this.metaindex) && fresh(this.index)
      ensures Handles(this.metaindex.Get(), this.index.Get()) == Handles(metaindex, index)
    {
      this.metaindex := new BlockHandle(metaindex);
      this.index := new BlockHandle(index);
    }

    /** The padding counts from the start of the string: it leaves 48 bytes in all, so that the assertion at the
        end holds exactly if the string was empty. */
    method EncodeTo(dst: ByteString)
      requires IsSet(metaindex.Get()) && IsSet(index.Get())
      modifies dst
      ensures dst.data == Resize(old(dst.data) + HandleBytes(metaindex.Get()) + HandleBytes(index.Get()), 40)
                        + Fixed64(TABLE_MAGIC_NUMBER)
      ensures |dst.data| == |old(dst.data)| + ENCODED_FOOTER <==> old(dst.data) == []
      ensures old(dst.data) == [] ==> dst.data == FooterBytes(metaindex.Get(), index.Get())
    {
      hide HandleBytes, Fixed64, Fixed32, IsSet;
      metaindex.EncodeTo(dst);
      index.EncodeTo(dst);
      HandleFits(metaindex.Get());
      HandleFits(index.Get());
      dst.data := Resize(dst.data, 2 * MAX_ENCODED_HANDLE);
      PutFixed32(dst, TABLE_MAGIC_NUMBER % TWO_32);
      PutFixed32(dst, TABLE_MAGIC_NUMBER / TWO_32);
      FixedHalves(TABLE_MAGIC_NUMBER);
    }

    method DecodeFrom(read: Varint64Reader, input: ByteString) returns (s: Status)
      requires Valid() && ReadsVarints(read) && |input.data| >= ENCODED_FOOTER
      modifies metaindex, index, input
      ensures DecodeFooter(read, old(input.data), old(Handles(metaindex.Get(), index.Get())))
           == FooterDecoding(s, Handles(metaindex.Get(), index.Get()), input.data)
    {
      hide FixedValue, DecodeHandle, ReadsVarints;
      var data := input.data;
      var magicLo := FixedValue(data[40..44]);
      var magicHi := FixedValue(data[44..48]);
      FixedValueHalves(data[40..48]);
      assert data[40..48][..4] == data[40..44] && data[40..48][4..] == data[44..48];
      if magicHi * TWO_32 + magicLo != TABLE_MAGIC_NUMBER {
        return Corruption("not an sstable (bad magic number)");
      }
      s := metaindex.DecodeFrom(read, input);
      if s == OK {
        s := index.DecodeFrom(read, input);
      }
      if s == OK {
        input.data := data[ENCODED_FOOTER..];
      }
    }
  }

  lemma FixedHalves(n: nat)
    requires n < TWO_64
    ensures Fixed32(n % TWO_32) + Fixed32(n / TWO_32) == Fixed64(n)
  {
    hide Fixed, FixedValue;
    var lo, hi := n % TWO_32, n / TWO_32;
    var bytes := Fixed32(lo) + Fixed32(hi);
    FixedValueHalves(bytes);
    assert bytes[..4] == Fixed32(lo) && bytes[4..] == Fixed32(hi);
    Fixed32RoundTrip(lo);
    Fixed32RoundTrip(hi);
    FixedOfValue(bytes);
  }

  lemma FixedValueHalves(bytes: Bytes)
    requires |bytes| == 8
    ensures FixedValue(bytes) == FixedValue(bytes[4..]) * TWO_32 + FixedValue(bytes[..4])
  {
    hide FixedValue;
    FixedValueAppend(bytes[..4], bytes[4..]);
    assert bytes == bytes[..4] + bytes[4..];
    Widths();
  }

  // ---- Words of the checksum in the file ----

  /** The number with the given bits, lowest first. */
  function Number(bits: seq<bool>): nat {
    if bits == [] then 0 else (if bits[0] then 1 else 0) + 2 * Number(bits[1..])
  }

  /** The `n` low bits of a word, lowest first. */
  function Unpack(w: bv32, n: nat): (bits: seq<bool>)
    ensures |bits| == n
  {
    if n == 0 then [] else [LowBit(w)] + Unpack(Halved(w), n - 1)
  }

  /** `EncodeFixed32` of a checksum. */
  function WordBytes(w: bv32): (bytes: Bytes)
    ensures |bytes| == 4
  {
    Fixed32(Number(Unpack(w, 32)))
  }

  lemma {:induction false} BitsOfNumber(bits: seq<bool>)
    ensures LowestBits(Number(bits), |bits|) == bits
  {
    if bits != [] {
      var n := Number(bits);
      assert n / 2 == Number(bits[1..]) && (n % 2 == 1 <==> bits[0]);
      BitsOfNumber(bits[1..]);
      assert bits == [bits[0]] + bits[1..];
    }
  }

  lemma ByteBits(n: nat, k: nat)
    ensures LowestBits(n, 8 + k) == Bits(n % 256) + LowestBits(n / 256, k)
  {
    BitsSplit(n / 256, n % 256, 256, 8, k);
  }

  /** The low bits of `b * h + l` are those of `l`, then those of `h`. */
  lemma {:induction false} BitsSplit(h: nat, l: nat, b: nat, m: nat, k: nat)
    requires b == Pow(2, m) && l < b
    ensures LowestBits(b * h + l, m + k) == LowestBits(l, m) + LowestBits(h, k)
    decreases m
  {
    if m == 0 {
      assert b * h + l == h;
    } else {
      var half := Pow(2, m - 1);
      assert b == 2 * half;
      BitsSplit(h, l / 2, half, m - 1, k);
      hide *;
      BitsSplitStep(h, l, half, m - 1, k);
    }
  }

  lemma BitsSplitStep(h: nat, l: nat, half: nat, m: nat, k: nat)
    requires LowestBits(half * h + l / 2, m + k) == LowestBits(l / 2, m) + LowestBits(h, k)
    ensures LowestBits(2 * half * h + l, m + 1 + k) == LowestBits(l, m + 1) + LowestBits(h, k)
  {
    hide LowestBits;
    Halves(half, h, l);
    LowestBitsStep(2 * half * h + l, m + k);
    LowestBitsStep(l, m);
  }

  lemma Halves(half: nat, h: nat, l: nat)
    ensures 2 * half * h + l >= 0
    ensures (2 * half * h + l) / 2 == half * h + l / 2 && (2 * half * h + l) % 2 == l % 2
  {
    var x := half * h;
    assert 2 * half * h == 2 * x;
  }

  lemma {:induction false} FixedBits(n: nat, k: nat)
    ensures BitsOf(Fixed(n, k)) == LowestBits(n, 8 * k)
    decreases k
  {
    hide Bits;
    if k > 0 {
      ByteBits(n, 8 * (k - 1));
      FixedBits(n / 256, k - 1);
    }
  }

  lemma Reassembled(w: bv32)
    ensures Prepend(LowBit(w), Halved(w)) == w
  {
  }

  lemma {:induction false} PackUnpack(w: bv32, n: nat)
    requires n <= 32 && Within(w, Low(n))
    ensures Pack(Unpack(w, n)) == w
    decreases n
  {
    hide Within, Prepend, TopClear, LowBit, Halved;
    if n == 0 {
      WithinNothing(w);
    } else {
      LowTopClear(n - 1);
      HalvedWithin(w, Low(n - 1));
      PackUnpack(Halved(w), n - 1);
      Reassembled(w);
    }
  }

  lemma AllWithin(w: bv32)
    ensures Within(w, Low(32))
  {
    assert Low(8) == 0xff;
    assert Low(16) == 0xffff;
    assert Low(24) == 0xff_ffff;
    assert Low(32) == 0xffff_ffff;
  }

  /** A word is read back from its four bytes. */
  lemma WordRoundTrip(w: bv32)
    ensures Pack(BitsOf(WordBytes(w))) == w
  {
    hide *;
    AllWithin(w);
    PackUnpack(w, 32);
    WordBits(w);
  }

  lemma WordBits(w: bv32)
    ensures BitsOf(WordBytes(w)) == Unpack(w, 32)
  {
    hide Number, Unpack, BitsOf, LowestBits, Fixed;
    var bits := Unpack(w, 32);
    BitsOfNumber(bits);
    FixedBits(Number(bits), 4);
  }

  lemma WordOfBytes(bytes: Bytes)
    requires |bytes| == 4
    ensures WordBytes(Pack(BitsOf(bytes))) == bytes
  {
    hide Pack, BitsOf;
    var back := WordBytes(Pack(BitsOf(bytes)));
    WordRoundTrip(Pack(BitsOf(bytes)));
    BitsOfLength(back);
    BitsOfLength(bytes);
    PackInjective(BitsOf(back), BitsOf(bytes));
    BitsOfInjective(back, bytes);
  }

  // ---- Blocks in the file ----

  const BLOCK_TRAILER: nat := 5
  const NO_COMPRESSION: Byte := 0
  const SNAPPY_COMPRESSION: Byte := 1

  /** What `RandomAccessFile::Read` answers: an error, or bytes that lie in the file's own memory
      (`mapped`) or in the caller's buffer. */
  datatype ReadOutcome = Failed(status: Status) | Read(data: Bytes, mapped: bool)

  datatype BlockContents = BlockContents(data: Bytes, cachable: bool, heapAllocated: bool)

  const NOTHING := BlockContents([], false, false)

  /** The four bytes at `p` carry the masked checksum of the bytes in front of them. */
  predicate ChecksumHolds(data: Bytes, p: nat)
    requires p + 4 <= |data|
  {
    Unmask(ReadUint32LE(data, p)) == Crc(0, data[..p])
  }

  /** `n + kBlockTrailerSize`, a `size_t`. */
  function ReadSize(n: nat): nat {
    (n + BLOCK_TRAILER) % TWO_64
  }

  /** `n + 1`, another one: where the checksum is, and how many bytes it covers. */
  function ChecksumAt(n: nat): nat {
    (n + 1) % TWO_64
  }

  /** What `ReadBlock` comes to: a status, or a read outside the bytes that the file gave, after which
      nothing is defined. */
  datatype Verdict = Answer(status: Status) | Outside

  /** The verdict on a block of `n` bytes; the checks come in this order. */
  function Examine(outcome: ReadOutcome, n: nat, verify: bool): Verdict {
    match outcome
    case Failed(status) => Answer(status)
    case Read(data, _) =>
      if |data| != ReadSize(n) then Answer(Corruption("truncated block read"))
      else if verify && ChecksumAt(n) + 4 > |data| then Outside
      else if verify && !ChecksumHolds(data, ChecksumAt(n)) then Answer(Corruption("block checksum mismatch"))
      else if n >= |data| then Outside
      else if data[n] != NO_COMPRESSION && data[n] != SNAPPY_COMPRESSION then Answer(Corruption("bad block type"))
      else Answer(OK)
  }

  /** The length check keeps its promise exactly if the size, a `uint64_t`, leaves room for the trailer:
      then an answer that passes it holds the type and the checksum; otherwise none holds the type. Where it does
      not, `ReadBlock` reads outside, save for the last size of all: there the checksum of no bytes is looked for
      at the front, and if it is not found that is the answer. */
  lemma LengthCheckIff(data: Bytes, n: nat, mapped: bool, verify: bool)
    requires n < TWO_64 && |data| == ReadSize(n)
    ensures n + BLOCK_TRAILER <= |data| <==> n + BLOCK_TRAILER < TWO_64
    ensures n < |data| <==> n + BLOCK_TRAILER < TWO_64
    ensures Examine(Read(data, mapped), n, verify) == Outside
       <==> n + BLOCK_TRAILER >= TWO_64 && !(verify && n == TWO_64 - 1 && !ChecksumHolds(data, 0))
  {
    hide ChecksumHolds;
  }

  /** A handle that can be decoded, and an answer that passes: no bytes at all. */
  lemma LengthCheckFails(read: Varint64Reader, rest: Bytes, was: Handle, verify: bool)
    requires ReadsVarints(read)
    ensures var h := Handle(0, TWO_64 - BLOCK_TRAILER);
      && DecodeHandle(read, HandleBytes(h) + rest, was) == HandleDecoding(true, h, rest)
      && Examine(Read([], true), h.size, verify) == Outside
  {
    hide HandleBytes;
    HandleRoundTrip(read, Handle(0, TWO_64 - BLOCK_TRAILER), rest, was);
    LengthCheckIff([], TWO_64 - BLOCK_TRAILER, true, verify);
  }

  /** Only an uncompressed block has contents. */
  function Contents(outcome: ReadOutcome, n: nat, verify: bool): BlockContents {
    if outcome.Read? && Examine(outcome, n, verify) == Answer(OK) && outcome.data[n] == NO_COMPRESSION then
      BlockContents(outcome.data[..n], !outcome.mapped, !outcome.mapped)
    else
      NOTHING
  }

  /** Every answer, in the order of the checks: the file's error; "truncated" for a wrong length; and for a block with
      type and checksum a mismatch, if it is looked for; the contents of type 0; none for type 1; an error for any
      other type. Contents that lie in the file's own memory are not to be cached or freed, others are. */
  lemma ReadAnswers(outcome: ReadOutcome, n: nat, verify: bool)
    requires n + 5 < 0x1_0000_0000_0000_0000
    ensures var v, c := Examine(outcome, n, verify), Contents(outcome, n, verify);
      var none := BlockContents([], false, false);
      match outcome
      case Failed(status) => v == Answer(status) && c == none
      case Read(data, mapped) =>
        if |data| != n + 5 then v == Answer(Corruption("truncated block read")) && c == none
        else if verify && Unmask(ReadUint32LE(data, n + 1)) != Crc(0, data[..n + 1]) then
          v == Answer(Corruption("block checksum mismatch")) && c == none
        else if data[n] == 0 then
          v == Answer(OK) && c.data == data[..n] && c.cachable == c.heapAllocated == !mapped
        else if data[n] == 1 then v == Answer(OK) && c == none
        else v == Answer(Corruption("bad block type")) && c == none
  {
    hide Unmask, ReadUint32LE, Crc;
  }

  /** `ReadBlock`, given what the file answers; the bytes lie at `address`. */
  method ReadBlock(outcome: ReadOutcome, address: nat, n: nat, verify: bool)
    returns (v: Verdict, result: BlockContents)
    requires outcome.Failed? ==> outcome.status != OK
    ensures v == Examine(outcome, n, verify) && result == Contents(outcome, n, verify)
  {
    hide Crc, Unmask, ReadUint32LE;
    result := NOTHING;
    if outcome.Failed? {
      return Answer(outcome.status), result;
    }
    var data := outcome.data;
    if |data| != ReadSize(n) {
      return Answer(Corruption("truncated block read")), result;
    }
    if verify {
      var p := ChecksumAt(n);
      if p + 4 > |data| {
        return Outside, result;
      }
      var crc := Unmask(ReadUint32LE(data, p));
      var actual := Value(address, data[..p]);
      if actual != crc {
        return Answer(Corruption("block checksum mismatch")), result;
      }
    }
    if n >= |data| {
      return Outside, result;
    }
    if data[n] == NO_COMPRESSION {
      result := if outcome.mapped then BlockContents(data[..n], false, false) else BlockContents(data[..n], true, true);
    } else if data[n] != SNAPPY_COMPRESSION {
      return Answer(Corruption("bad block type")), result;
    }
    v := Answer(OK);
  }

  /** A block as `WriteRawBlock` appends it: the data, the type, and the masked checksum of both. */
  function StoredBlock(data: Bytes, kind: Byte): (stored: Bytes)
    ensures |stored| == |data| + BLOCK_TRAILER
  {
    data + [kind] + WordBytes(Mask(Crc(0, data + [kind])))
  }

  /** For every body there is exactly one trailer that `ReadBlock` accepts: the one that is written. */
  lemma ChecksumHoldsIff(body: Bytes, trailer: Bytes)
    requires |trailer| == 4
    ensures ChecksumHolds(body + trailer, |body|) <==> trailer == WordBytes(Mask(Crc(0, body)))
  {
    hide Mask, Unmask, Crc, WordBytes, Pack, BitsOf;
    var crc := Crc(0, body);
    assert (body + trailer)[..|body|] == body && (body + trailer)[|body|..|body| + 4] == trailer;
    WordOfBytes(trailer);
    WordRoundTrip(Mask(crc));
    MaskRoundTrip(crc);
    MaskRoundTrip(Pack(BitsOf(trailer)));
  }

  /** A block that was written is read back, checksum and all, exactly when its type says that it is
      not compressed; `WriteBlock` stores uncompressed bytes under either type. */
  lemma StoredBlockReadBackIff(data: Bytes, kind: Byte, mapped: bool, verify: bool)
    requires kind == NO_COMPRESSION || kind == SNAPPY_COMPRESSION
    ensures Examine(Read(StoredBlock(data, kind), mapped), |data|, verify)
         == Answer(if |data| + BLOCK_TRAILER < TWO_64 then OK else Corruption("truncated block read"))
    ensures Contents(Read(StoredBlock(data, kind), mapped), |data|, verify).data == data
       <==> (kind == NO_COMPRESSION && |data| + BLOCK_TRAILER < TWO_64) || data == []
  {
    hide Crc, Mask, WordBytes, ChecksumHolds;
    ChecksumHoldsIff(data + [kind], WordBytes(Mask(Crc(0, data + [kind]))));
    assert StoredBlock(data, kind)[..|data|] == data;
  }

  /** One byte, stored under the default compression, is lost. */
  lemma StoredBlockLost(mapped: bool, verify: bool)
    ensures var outcome := Read(StoredBlock([7], SNAPPY_COMPRESSION), mapped);
      Examine(outcome, 1, verify) == Answer(OK) && Contents(outcome, 1, verify) == NOTHING
  {
    hide StoredBlock, ChecksumHolds;
    StoredBlockReadBackIff([7], SNAPPY_COMPRESSION, mapped, verify);
    assert StoredBlock([7], SNAPPY_COMPRESSION)[1] == SNAPPY_COMPRESSION by { StoredKind([7], SNAPPY_COMPRESSION); }
  }

  lemma StoredKind(data: Bytes, kind: Byte)
    ensures StoredBlock(data, kind)[|data|] == kind
  {
  }

  /** How a damaged block is refused; a string of 2^64 bytes or more, if there were one, for its length. */
  function Refused(stored: Bytes): Verdict {
    Answer(Corruption(if |stored| < TWO_64 then "block checksum mismatch" else "truncated block read"))
  }

  lemma RefusedIf(stored: Bytes, n: nat, mapped: bool)
    requires |stored| == n + BLOCK_TRAILER && !ChecksumHolds(stored, n + 1)
    ensures Examine(Read(stored, mapped), n, true) == Refused(stored)
  {
    hide ChecksumHolds;
  }

  /** Damage to at most four neighbouring bytes of a block and its type, under an intact trailer. */
  lemma DamagedBlockRefused(before: Bytes, u: Bytes, v: Bytes, after: Bytes, mapped: bool)
    requires |u| == |v| <= 4 && u != v
    ensures var trailer := WordBytes(Mask(Crc(0, before + u + after)));
      var stored := before + v + after + trailer;
      Examine(Read(stored, mapped), |stored| - BLOCK_TRAILER, true) == Refused(stored)
  {
    hide Crc, Mask, Unmask, WordBytes, ChecksumHolds, Examine, Refused;
    var was, now := before + u + after, before + v + after;
    var trailer := WordBytes(Mask(Crc(0, was)));
    ChecksumHoldsIff(now, trailer);
    if !ChecksumHolds(now + trailer, |now|) { RefusedIf(now + trailer, |now| - 1, mapped); }
    WindowDetected(0, before, u, v, after);
    WordRoundTrip(Mask(Crc(0, was)));
    WordRoundTrip(Mask(Crc(0, now)));
    MaskRoundTrip(Crc(0, was));
    MaskRoundTrip(Crc(0, now));
  }

  /** An odd number of flipped bits, wherever they are, under an intact trailer. */
  lemma OddDamageRefused(was: Bytes, now: Bytes, mapped: bool)
    requires |was| == |now| > 0 && |BitsOf(was)| == |BitsOf(now)|
    requires Ones(XorBits(BitsOf(was), BitsOf(now))) % 2 == 1
    ensures var stored := now + WordBytes(Mask(Crc(0, was)));
      Examine(Read(stored, mapped), |now| - 1, true) == Refused(stored)
  {
    hide Crc, Mask, Unmask, WordBytes, ChecksumHolds, Examine, Refused, BitsOf, Ones, XorBits;
    var trailer := WordBytes(Mask(Crc(0, was)));
    ChecksumHoldsIff(now, trailer);
    if !ChecksumHolds(now + trailer, |now|) { RefusedIf(now + trailer, |now| - 1, mapped); }
    OddErrorsDetected(0, was, now);
    WordRoundTrip(Mask(Crc(0, was)));
    WordRoundTrip(Mask(Crc(0, now)));
    MaskRoundTrip(Crc(0, was));
    MaskRoundTrip(Crc(0, now));
  }

  /** Any damage to the trailer alone. */
  lemma DamagedTrailerRefused(data: Bytes, kind: Byte, trailer: Bytes, mapped: bool)
    requires |trailer| == 4 && data + [kind] + trailer != StoredBlock(data, kind)
    ensures Examine(Read(data + [kind] + trailer, mapped), |data|, true) == Refused(data + [kind] + trailer)
  {
    hide Crc, Mask, WordBytes, ChecksumHolds, Examine, Refused;
    var body := data + [kind];
    ChecksumHoldsIff(body, trailer);
    RefusedIf(body + trailer, |data|, mapped);
  }
}
