/** util/crc32c: the strided checksum computes the bit-serial one. */
module Crc32c {
  import opened Arithmetic
  import opened Bytes
  import opened Crc32cSpec
  import opened Crc32cTables

  const MASK_DELTA: bv32 := 0xa282_ead8

  // ---- Bytes and words of the buffer ----

  /** `*p`, widened to 32 bits. */
  function Load(b: Byte): bv32 {
    Pack(Bits(b))
  }

  /** `ReadUint32LE(p)`: bit `8 * i + j` of the word is bit `j` of `p[i]`. */
  function ReadUint32LE(data: Bytes, p: nat): bv32
    requires p + 4 <= |data|
  {
    Pack(BitsOf(data[p..p + 4]))
  }

  function LowByte(w: bv32): bv32 {
    w & 0xff
  }

  function DropByte(w: bv32): bv32 {
    w >> 8
  }

  lemma LoadIsByte(b: Byte)
    ensures IsByte(Load(b))
  {
    hide Pack, IsByte;
    PackWithin(Bits(b));
    WithinLow8(Load(b));
  }

  lemma WithinLow8(w: bv32)
    requires Within(w, Low(8))
    ensures IsByte(w)
  {
    assert Low(8) == 0xff;
  }

  lemma LowByteIsByte(w: bv32)
    ensures IsByte(LowByte(w))
  {
  }

  lemma XorIsByte(a: bv32, b: bv32)
    requires IsByte(a) && IsByte(b)
    ensures IsByte(Xor(a, b))
  {
    assert (a & 0xff) ^ (b & 0xff) == (a ^ b) & 0xff;
  }

  // ---- Moving eight bits at a time ----

  /** A word whose low byte is zero only moves down. */
  lemma ShiftAligned(w: bv32)
    requires LowByte(w) == 0
    ensures Shift(w, 8) == DropByte(w)
  {
  }

  lemma RestIsAligned(w: bv32)
    ensures LowByte(Xor(w, LowByte(w))) == 0
  {
  }

  lemma RestMovesDown(w: bv32)
    ensures DropByte(Xor(w, LowByte(w))) == DropByte(w)
  {
  }

  lemma XorBack(w: bv32, low: bv32)
    ensures Xor(low, Xor(w, low)) == w
  {
  }

  /** The low byte of a word goes through the feedback, the rest just moves down. */
  lemma ShiftSplit(w: bv32, n: nat)
    ensures Shift(w, 8 + n) == Xor(Shift(LowByte(w), 8 + n), Shift(DropByte(w), n))
  {
    hide *;
    var rest := Xor(w, LowByte(w));
    RestIsAligned(w);
    RestMovesDown(w);
    XorBack(w, LowByte(w));
    ShiftLinear(LowByte(w), rest, 8 + n);
    ShiftAdd(rest, 8, n);
    ShiftAligned(rest);
  }

  lemma FeedByte(l: bv32, b: Byte)
    ensures Feed(l, Bits(b)) == Shift(Xor(l, Load(b)), 8)
  {
    hide Feed, Shift, Pack;
    FeedPacked(l, Bits(b));
  }

  lemma ShiftNothing(w: bv32)
    ensures Shift(w, 0) == w
  {
  }

  lemma XorSwap(a: bv32, b: bv32, c: bv32)
    ensures Xor(Xor(a, b), c) == Xor(Xor(a, c), b)
  {
    hide *;
    XorAssociative(a, b, c);
    XorSymmetric(b, c);
    XorAssociative(a, c, b);
  }

  // ---- The macros ----

  /** STEP1. */
  function Step1(l: bv32, b: Byte): bv32 {
    ByteExtensionIsTable();
    LoadIsByte(b);
    LowByteIsByte(l);
    XorIsByte(LowByte(l), Load(b));
    Xor(Lookup(BYTE_EXTENSION, Xor(LowByte(l), Load(b))), DropByte(l))
  }

  lemma Step1Feeds(l: bv32, b: Byte)
    ensures Step1(l, b) == Feed(l, Bits(b))
  {
    hide Lookup, Load, LowByte, DropByte, Xor, IsByte, Shift, Feed, Bits, Shape;
    ByteExtensionIsTable();
    LoadIsByte(b);
    LowByteIsByte(l);
    XorIsByte(LowByte(l), Load(b));
    FeedByte(l, b);
    ShiftLinear(l, Load(b), 8);
    ShiftLinear(LowByte(l), Load(b), 8);
    ShiftSplit(l, 0);
    ShiftNothing(DropByte(l));
    XorSwap(Shift(LowByte(l), 8), DropByte(l), Shift(Load(b), 8));
  }

  /** STEP4: a stride takes in its next word, 16 bytes after the last. */
  function Step4(crc: bv32, word: bv32): bv32 {
    StrideExtension0IsTable();
    StrideExtension1IsTable();
    StrideExtension2IsTable();
    StrideExtension3IsTable();
    BytesOfWord(crc);
    Xor(Xor(Xor(Xor(word,
                    Lookup(STRIDE_EXTENSION_3, crc & 0xff)),
                Lookup(STRIDE_EXTENSION_2, (crc >> 8) & 0xff)),
            Lookup(STRIDE_EXTENSION_1, (crc >> 16) & 0xff)),
        Lookup(STRIDE_EXTENSION_0, crc >> 24))
  }

  lemma BytesOfWord(w: bv32)
    ensures IsByte(w & 0xff) && IsByte((w >> 8) & 0xff)
    ensures IsByte((w >> 16) & 0xff) && IsByte(w >> 24)
    ensures LowByte(w) == w & 0xff
    ensures LowByte(DropByte(w)) == (w >> 8) & 0xff
    ensures LowByte(DropByte(DropByte(w))) == (w >> 16) & 0xff
    ensures DropByte(DropByte(DropByte(w))) == w >> 24
  {
  }

  lemma ShiftByBytes(w: bv32)
    ensures Shift(w, 128)
         == Xor(Shift(w & 0xff, 128),
                Xor(Shift((w >> 8) & 0xff, 120),
                    Xor(Shift((w >> 16) & 0xff, 112), Shift(w >> 24, 104))))
  {
    BytesOfWord(w);
    hide *;
    ShiftSplit(w, 120);
    ShiftSplit(DropByte(w), 112);
    ShiftSplit(DropByte(DropByte(w)), 104);
  }

  lemma Step4Shifts(crc: bv32, word: bv32)
    ensures Step4(crc, word) == Xor(Shift(crc, 128), word)
  {
    hide Lookup, Xor, IsByte, Shift, Shape, LowByte, DropByte;
    StrideExtension0IsTable();
    StrideExtension1IsTable();
    StrideExtension2IsTable();
    StrideExtension3IsTable();
    BytesOfWord(crc);
    ShiftByBytes(crc);
    XorReassociate(word, Shift(crc & 0xff, 128), Shift((crc >> 8) & 0xff, 120),
                   Shift((crc >> 16) & 0xff, 112), Shift(crc >> 24, 104));
  }

  lemma XorReassociate(w: bv32, a: bv32, b: bv32, c: bv32, d: bv32)
    ensures Xor(Xor(Xor(Xor(w, a), b), c), d) == Xor(Xor(a, Xor(b, Xor(c, d))), w)
  {
    hide *;
    XorAssociative(Xor(Xor(w, a), b), c, d);
    XorAssociative(Xor(w, a), b, Xor(c, d));
    XorAssociative(w, a, Xor(b, Xor(c, d)));
    XorSymmetric(w, Xor(a, Xor(b, Xor(c, d))));
  }

  /** STEP4W: the word joins the register, which then moves on by four bytes. */
  method Step4W(l: bv32, word: bv32) returns (w: bv32)
    ensures w == Shift(Xor(word, l), 32)
  {
    ByteExtensionIsTable();
    w := Xor(word, l);
    ghost var start := w;
    for i := 0 to 4
      invariant w == Shift(start, 8 * i)
    {
      hide Lookup, Xor, IsByte, Shift, Shape, LowByte, DropByte;
      ByteStepShifts(w);
      ShiftAdd(start, 8 * i, 8);
      LowByteIsByte(w);
      w := Xor(DropByte(w), Lookup(BYTE_EXTENSION, LowByte(w)));
    }
  }

  lemma ByteStepShifts(w: bv32)
    ensures Shift(w, 8) == Xor(DropByte(w), Shift(LowByte(w), 8))
  {
    hide *;
    ShiftSplit(w, 0);
    ShiftNothing(DropByte(w));
    XorSymmetric(DropByte(w), Shift(LowByte(w), 8));
  }

  // ---- The four strides ----

  /** The register that the four partial remainders stand for, as STEP4W combines them. */
  function Combine(c0: bv32, c1: bv32, c2: bv32, c3: bv32): bv32 {
    Shift(Xor(Shift(Xor(Shift(Xor(Shift(c0, 32), c1), 32), c2), 32), c3), 32)
  }

  lemma CombineExpanded(c0: bv32, c1: bv32, c2: bv32, c3: bv32)
    ensures Combine(c0, c1, c2, c3)
         == Xor(Xor(Xor(Shift(c0, 128), Shift(c1, 96)), Shift(c2, 64)), Shift(c3, 32))
  {
    hide Shift, Xor;
    var s0 := Shift(c0, 32);
    var s1 := Shift(Xor(s0, c1), 32);
    var s2 := Shift(Xor(s1, c2), 32);
    ShiftAdd(c0, 32, 32);
    ShiftLinear(s0, c1, 32);
    ShiftAdd(c0, 64, 32);
    ShiftAdd(c1, 32, 32);
    ShiftLinear(s1, c2, 32);
    ShiftLinear(Shift(c0, 64), Shift(c1, 32), 32);
    ShiftAdd(c0, 96, 32);
    ShiftAdd(c1, 64, 32);
    ShiftAdd(c2, 32, 32);
    ShiftLinear(s2, c3, 32);
    ShiftLinear(Xor(Shift(c0, 96), Shift(c1, 64)), Shift(c2, 32), 32);
    ShiftLinear(Shift(c0, 96), Shift(c1, 64), 32);
  }

  /** The key step: giving the oldest stride its next word and making it the newest has the same
      effect as feeding that word to the register. */
  lemma RotateFeeds(c0: bv32, c1: bv32, c2: bv32, c3: bv32, word: bv32)
    ensures Combine(c1, c2, c3, Step4(c0, word))
         == Shift(Xor(Combine(c0, c1, c2, c3), word), 32)
  {
    hide Shift, Xor, Combine, Step4;
    Step4Shifts(c0, word);
    var next := Xor(Shift(c0, 128), word);
    CombineExpanded(c0, c1, c2, c3);
    CombineExpanded(c1, c2, c3, next);
    ShiftLinear(Shift(c0, 128), word, 32);
    ShiftLinear(Combine(c0, c1, c2, c3), word, 32);
    ShiftFour(c0, c1, c2, c3);
    XorRotate(Shift(Shift(c0, 128), 32), Shift(c1, 128), Shift(c2, 96), Shift(c3, 64), Shift(word, 32));
  }

  lemma ShiftFour(c0: bv32, c1: bv32, c2: bv32, c3: bv32)
    ensures Shift(Xor(Xor(Xor(Shift(c0, 128), Shift(c1, 96)), Shift(c2, 64)), Shift(c3, 32)), 32)
         == Xor(Xor(Xor(Shift(Shift(c0, 128), 32), Shift(c1, 128)), Shift(c2, 96)), Shift(c3, 64))
  {
    hide Shift, Xor;
    ShiftLinear(Xor(Xor(Shift(c0, 128), Shift(c1, 96)), Shift(c2, 64)), Shift(c3, 32), 32);
    ShiftLinear(Xor(Shift(c0, 128), Shift(c1, 96)), Shift(c2, 64), 32);
    ShiftLinear(Shift(c0, 128), Shift(c1, 96), 32);
    ShiftAdd(c1, 96, 32);
    ShiftAdd(c2, 64, 32);
    ShiftAdd(c3, 32, 32);
  }

  lemma XorRotate(a: bv32, b: bv32, c: bv32, d: bv32, w: bv32)
    ensures Xor(Xor(Xor(b, c), d), Xor(a, w)) == Xor(Xor(Xor(Xor(a, b), c), d), w)
  {
    hide *;
    XorAssociative(Xor(Xor(b, c), d), a, w);
    XorSymmetric(Xor(Xor(b, c), d), a);
    XorAssociative(a, Xor(b, c), d);
    XorAssociative(a, b, c);
  }

  // ---- Extend ----

  /** The register after the first `k` bytes of `buf`. */
  function After(l: bv32, buf: Bytes, k: nat): bv32
    requires k <= |buf|
  {
    Feed(l, BitsOf(buf[..k]))
  }

  lemma AfterAppend(l: bv32, buf: Bytes, k: nat, n: nat)
    requires k + n <= |buf|
    ensures After(l, buf, k + n) == Feed(After(l, buf, k), BitsOf(buf[k..k + n]))
  {
    hide Feed, BitsOf;
    assert buf[..k + n] == buf[..k] + buf[k..k + n];
    BitsOfAppend(buf[..k], buf[k..k + n]);
    FeedAppend(l, BitsOf(buf[..k]), BitsOf(buf[k..k + n]));
  }

  lemma AfterByte(l: bv32, buf: Bytes, k: nat)
    requires k < |buf|
    ensures After(l, buf, k + 1) == Step1(After(l, buf, k), buf[k])
  {
    AfterAppend(l, buf, k, 1);
    assert buf[k..k + 1] == [buf[k]];
    assert BitsOf([buf[k]]) == Bits(buf[k]);
    hide *;
    Step1Feeds(After(l, buf, k), buf[k]);
  }

  lemma {:induction false} BitsOfLength(data: Bytes)
    ensures |BitsOf(data)| == 8 * |data|
  {
    if data != [] {
      BitsOfLength(data[1..]);
    }
  }

  lemma AfterWord(l: bv32, buf: Bytes, k: nat)
    requires k + 4 <= |buf|
    ensures After(l, buf, k + 4) == Shift(Xor(After(l, buf, k), ReadUint32LE(buf, k)), 32)
  {
    AfterAppend(l, buf, k, 4);
    hide Feed, BitsOf, After, Shift, Xor, Pack;
    BitsOfLength(buf[k..k + 4]);
    FeedPacked(After(l, buf, k), BitsOf(buf[k..k + 4]));
  }

  /** `RoundUp<4>`. */
  function RoundUp4(pointer: nat): nat {
    (pointer + 3) / 4 * 4
  }

  /** The combining step: four STEP4W from a zero register. */
  method CombineStrides(c0: bv32, c1: bv32, c2: bv32, c3: bv32) returns (l: bv32)
    ensures l == Combine(c0, c1, c2, c3)
  {
    hide Shift, Xor;
    l := 0;
    XorUnit(c0);
    l := Step4W(l, c0);
    XorSymmetric(c1, l);
    l := Step4W(l, c1);
    XorSymmetric(c2, l);
    l := Step4W(l, c2);
    XorSymmetric(c3, l);
    l := Step4W(l, c3);
  }

  /** The first 16 bytes start the strides; the register joins the oldest one. */
  lemma StridesStart(l: bv32, buf: Bytes, k: nat)
    requires k + 16 <= |buf|
    ensures After(l, buf, k + 16)
         == Combine(Xor(ReadUint32LE(buf, k), After(l, buf, k)), ReadUint32LE(buf, k + 4),
                    ReadUint32LE(buf, k + 8), ReadUint32LE(buf, k + 12))
  {
    hide After, ReadUint32LE, Shift, Xor;
    AfterWord(l, buf, k);
    AfterWord(l, buf, k + 4);
    AfterWord(l, buf, k + 8);
    AfterWord(l, buf, k + 12);
    XorSymmetric(ReadUint32LE(buf, k), After(l, buf, k));
  }

  lemma StrideFeeds(l: bv32, buf: Bytes, k: nat, c0: bv32, c1: bv32, c2: bv32, c3: bv32)
    requires k + 4 <= |buf| && After(l, buf, k) == Combine(c0, c1, c2, c3)
    ensures After(l, buf, k + 4) == Combine(c1, c2, c3, Step4(c0, ReadUint32LE(buf, k)))
  {
    hide *;
    AfterWord(l, buf, k);
    RotateFeeds(c0, c1, c2, c3, ReadUint32LE(buf, k));
  }

  /** `Extend` on a buffer that lies at address `address`. */
  method Extend(crc: bv32, address: nat, buf: Bytes) returns (r: bv32)
    ensures r == Crc(crc, buf)
  {
    hide *;
    var p, e := address, address + |buf|;
    var l := Xor(crc, ALL_ONES);
    ghost var l0 := l;
    assert After(l0, buf, 0) == l0 by { StartsEmpty(l0, buf); }

    // Bytes up to the first aligned address, which may lie past the end of the buffer.
    var x := RoundUp4(p);
    assert p <= x by { RoundUpIsUp(p); }
    if x <= e {
      while p != x
        invariant address <= p <= x && l == After(l0, buf, p - address)
        decreases x - p
      {
        AfterByte(l0, buf, p - address);
        l := Step1(l, buf[p - address]);
        p := p + 1;
      }
    }

    if e - p >= 16 {
      var crc0 := Xor(ReadUint32LE(buf, p - address), l);
      var crc1 := ReadUint32LE(buf, p - address + 4);
      var crc2 := ReadUint32LE(buf, p - address + 8);
      var crc3 := ReadUint32LE(buf, p - address + 12);
      StridesStart(l0, buf, p - address);
      p := p + 16;

      // A 16-byte swath at a time (STEP16).
      while e - p >= 16
        invariant address <= p <= e && After(l0, buf, p - address) == Combine(crc0, crc1, crc2, crc3)
        decreases e - p
      {
        var q := p - address;
        StrideFeeds(l0, buf, q, crc0, crc1, crc2, crc3);
        crc0 := Step4(crc0, ReadUint32LE(buf, q));
        StrideFeeds(l0, buf, q + 4, crc1, crc2, crc3, crc0);
        crc1 := Step4(crc1, ReadUint32LE(buf, q + 4));
        StrideFeeds(l0, buf, q + 8, crc2, crc3, crc0, crc1);
        crc2 := Step4(crc2, ReadUint32LE(buf, q + 8));
        StrideFeeds(l0, buf, q + 12, crc3, crc0, crc1, crc2);
        crc3 := Step4(crc3, ReadUint32LE(buf, q + 12));
        p := p + 16;
      }

      // A word at a time; the strides change places.
      while e - p >= 4
        invariant address <= p <= e && After(l0, buf, p - address) == Combine(crc0, crc1, crc2, crc3)
        decreases e - p
      {
        StrideFeeds(l0, buf, p - address, crc0, crc1, crc2, crc3);
        crc0 := Step4(crc0, ReadUint32LE(buf, p - address));
        var tmp := crc0;
        crc0 := crc1;
        crc1 := crc2;
        crc2 := crc3;
        crc3 := tmp;
        p := p + 4;
      }

      l := CombineStrides(crc0, crc1, crc2, crc3);
    }

    // The last bytes.
    while p != e
      invariant address <= p <= e && l == After(l0, buf, p - address)
      decreases e - p
    {
      AfterByte(l0, buf, p - address);
      l := Step1(l, buf[p - address]);
      p := p + 1;
    }
    EndsWhole(crc, buf);
    return Xor(l, ALL_ONES);
  }

  lemma StartsEmpty(l: bv32, buf: Bytes)
    ensures After(l, buf, 0) == l
  {
  }

  lemma RoundUpIsUp(p: nat)
    ensures p <= RoundUp4(p) < p + 4 && RoundUp4(p) % 4 == 0
  {
  }

  lemma EndsWhole(crc: bv32, buf: Bytes)
    ensures Xor(After(Xor(crc, ALL_ONES), buf, |buf|), ALL_ONES) == Crc(crc, buf)
  {
    hide Xor, Feed;
    assert buf[..|buf|] == buf;
  }

  /** `Value`. */
  method Value(address: nat, data: Bytes) returns (r: bv32)
    ensures r == Crc(0, data)
  {
    r := Extend(0, address, data);
  }

  /** Streaming through the fast form: the split may fall anywhere, and the pieces may lie at any
      addresses. */
  method ExtendTwice(crc: bv32, a: Bytes, addressA: nat, b: Bytes, addressB: nat) returns (r: bv32)
    ensures r == Crc(crc, a + b)
  {
    r := Extend(crc, addressA, a);
    r := Extend(r, addressB, b);
    CrcAppend(crc, a, b);
  }

  /** Two messages that differ only inside a window of at most four bytes have different checksums. */
  lemma WindowDetected(crc: bv32, before: Bytes, u: Bytes, v: Bytes, after: Bytes)
    requires |u| == |v| <= 4 && u != v
    ensures Crc(crc, before + u + after) != Crc(crc, before + v + after)
  {
    hide Feed, Xor, BitsOf;
    BitsOfAppend(before, u);
    BitsOfAppend(before, v);
    BitsOfAppend(before + u, after);
    BitsOfAppend(before + v, after);
    BitsOfLength(u);
    BitsOfLength(v);
    if BitsOf(u) == BitsOf(v) {
      BitsOfInjective(u, v);
    }
    var l := Xor(crc, ALL_ONES);
    BurstDetected(l, BitsOf(before), BitsOf(u), BitsOf(v), BitsOf(after));
    if Crc(crc, before + u + after) == Crc(crc, before + v + after) {
      XorCancels(Feed(l, BitsOf(before + u + after)), Feed(l, BitsOf(before + v + after)), ALL_ONES);
    }
  }

  lemma {:induction false} BitsOfInjective(u: Bytes, v: Bytes)
    requires |u| == |v| && BitsOf(u) == BitsOf(v)
    ensures u == v
  {
    if u != [] {
      BitsAreByte(u[0], v[0], BitsOf(u[1..]), BitsOf(v[1..]));
      BitsOfInjective(u[1..], v[1..]);
      assert u == [u[0]] + u[1..] && v == [v[0]] + v[1..];
    }
  }

  lemma BitsAreByte(a: Byte, b: Byte, s: seq<bool>, t: seq<bool>)
    requires Bits(a) + s == Bits(b) + t
    ensures a == b && s == t
  {
    assert Bits(a) == (Bits(a) + s)[..8] && Bits(b) == (Bits(b) + t)[..8];
    assert s == (Bits(a) + s)[8..] && t == (Bits(b) + t)[8..];
    LowestBitsInjective(a, b, 256, 8);
  }

  lemma LowestBitsStep(n: nat, k: nat)
    ensures LowestBits(n, k + 1) == [n % 2 == 1] + LowestBits(n / 2, k)
  {
  }

  lemma {:induction false} LowestBitsInjective(a: nat, b: nat, bound: nat, n: nat)
    requires LowestBits(a, n) == LowestBits(b, n)
    requires a < bound && b < bound && bound == Pow(2, n)
    ensures a == b
    decreases n
  {
    if n != 0 {
      LowestBitsStep(a, n - 1);
      LowestBitsStep(b, n - 1);
      hide LowestBits;
      assert LowestBits(a, n)[0] == LowestBits(b, n)[0];
      assert LowestBits(a, n)[1..] == LowestBits(b, n)[1..];
      LowestBitsInjective(a / 2, b / 2, bound / 2, n - 1);
    }
  }

  // ---- Masking ----

  function Mask(crc: bv32): bv32 {
    ((crc >> 15) | (crc << 17)) + MASK_DELTA
  }

  function Unmask(masked: bv32): bv32 {
    var rot := masked - MASK_DELTA;
    (rot >> 17) | (rot << 15)
  }

  lemma MaskExamples()
    ensures Mask(0) == 0xa282_ead8 && Mask(1) == 0xa284_ead8 && Mask(0xe306_9283) == 0xc78a_b0e5
    ensures Unmask(0xa282_ead8) == 0
  {
  }

  lemma MaskRoundTrip(crc: bv32)
    ensures Unmask(Mask(crc)) == crc && Mask(Unmask(crc)) == crc
  {
  }
}
