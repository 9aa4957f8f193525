/** Checksums that are known: those of the digits, and of 32 zero bytes (section B.4 of RFC 3720). */
module Crc32cAnswers {
  import opened Bytes
  import opened Crc32cSpec
  import opened Crc32c

  function Eight(r: bv32): bv32 {
    var r2 := BitStep(BitStep(r));
    var r4 := BitStep(BitStep(r2));
    var r6 := BitStep(BitStep(r4));
    BitStep(BitStep(r6))
  }

  lemma ShiftEight(r: bv32)
    ensures Shift(r, 8) == Eight(r)
  {
    hide BitStep;
  }

  /** One more byte. */
  lemma NextIs(l: bv32, buf: Bytes, k: nat, was: bv32, byte: bv32, now: bv32)
    requires k < |buf| && After(l, buf, k) == was && Load(buf[k]) == byte && Eight(Xor(was, byte)) == now
    ensures After(l, buf, k + 1) == now
  {
    hide *;
    AfterByte(l, buf, k);
    Step1Feeds(was, buf[k]);
    FeedByte(was, buf[k]);
    ShiftEight(Xor(was, byte));
  }

  const DIGITS: Bytes := [0x31, 0x32, 0x33, 0x34, 0x35, 0x36, 0x37, 0x38, 0x39]

  /** The word whose low bits are those of `n`. */
  function LowWord(n: nat, k: nat): bv32 {
    Pack(LowestBits(n, k))
  }

  lemma NextBit(n: nat, k: nat, half: bv32, w: bv32)
    requires LowWord(n / 2, k) == half && Prepend(n % 2 == 1, half) == w
    ensures LowWord(n, k + 1) == w
  {
    hide Prepend;
    var bits := LowestBits(n, k + 1);
    assert bits[1..] == LowestBits(n / 2, k);
  }

  lemma LoadIs(b: Byte)
    ensures Load(b) == LowWord(b, 8)
  {
    hide Pack, LowestBits;
  }

  lemma NoBits()
    ensures LowWord(0, 0) == 0
  {
  }

  lemma HighBits()
    ensures LowWord(24, 7) == 24 && LowWord(25, 7) == 25 && LowWord(26, 7) == 26 && LowWord(27, 7) == 27
    ensures LowWord(28, 7) == 28 && LowWord(0, 2) == 0
  {
    NoBits();
    hide LowWord;
    NextBit(0, 0, 0, 0);
    NextBit(0, 1, 0, 0);
    NextBit(1, 2, 0, 1);
    NextBit(3, 3, 1, 3);
    NextBit(6, 4, 3, 6);
    NextBit(7, 4, 3, 7);
    NextBit(12, 5, 6, 12);
    NextBit(13, 5, 6, 13);
    NextBit(14, 5, 7, 14);
    NextBit(24, 6, 12, 24);
    NextBit(25, 6, 12, 25);
    NextBit(26, 6, 13, 26);
    NextBit(27, 6, 13, 27);
    NextBit(28, 6, 14, 28);
  }

  lemma LoadedDigits()
    ensures Load(0x31) == 0x31 && Load(0x32) == 0x32 && Load(0x33) == 0x33
    ensures Load(0x34) == 0x34 && Load(0x35) == 0x35 && Load(0x36) == 0x36
    ensures Load(0x37) == 0x37 && Load(0x38) == 0x38 && Load(0x39) == 0x39
  {
    HighBits();
    hide LowWord, Load;
    NextBit(49, 7, 24, 0x31);
    LoadIs(0x31);
    NextBit(50, 7, 25, 0x32);
    LoadIs(0x32);
    NextBit(51, 7, 25, 0x33);
    LoadIs(0x33);
    NextBit(52, 7, 26, 0x34);
    LoadIs(0x34);
    NextBit(53, 7, 26, 0x35);
    LoadIs(0x35);
    NextBit(54, 7, 27, 0x36);
    LoadIs(0x36);
    NextBit(55, 7, 27, 0x37);
    LoadIs(0x37);
    NextBit(56, 7, 28, 0x38);
    LoadIs(0x38);
    NextBit(57, 7, 28, 0x39);
    LoadIs(0x39);
  }

  lemma LoadedZero()
    ensures Load(0) == 0
  {
    HighBits();
    hide LowWord, Load;
    NextBit(0, 2, 0, 0);
    NextBit(0, 3, 0, 0);
    NextBit(0, 4, 0, 0);
    NextBit(0, 5, 0, 0);
    NextBit(0, 6, 0, 0);
    NextBit(0, 7, 0, 0);
    LoadIs(0);
  }

  /** The checksum of the digits 1 to 9. */
  lemma ChecksumOfDigits()
    ensures Crc(0, DIGITS) == 0xe306_9283
  {
    var l: bv32 := 0xffff_ffff;
    hide Feed, BitsOf, Eight, After, Load, Bits;
    StartsEmpty(l, DIGITS);
    StepsOfDigits();
    LoadedDigits();
    NextIs(l, DIGITS, 0, 0xffff_ffff, 0x31, 0x6f0a_661c);
    NextIs(l, DIGITS, 1, 0x6f0a_661c, 0x32, 0x8caa_3b9f);
    NextIs(l, DIGITS, 2, 0x8caa_3b9f, 0x33, 0xef84_d04d);
    NextIs(l, DIGITS, 3, 0xef84_d04d, 0x34, 0x09c5_0b11);
    NextIs(l, DIGITS, 4, 0x09c5_0b11, 0x35, 0xe72e_dcca);
    NextIs(l, DIGITS, 5, 0xe72e_dcca, 0x36, 0xbeca_8e79);
    NextIs(l, DIGITS, 6, 0xbeca_8e79, 0x37, 0xedbd_6815);
    NextIs(l, DIGITS, 7, 0xedbd_6815, 0x38, 0x9f78_7f65);
    NextIs(l, DIGITS, 8, 0x9f78_7f65, 0x39, 0x1cf9_6d7c);
    AfterAll(l, DIGITS);
  }

  lemma StepsOfDigits()
    ensures Eight(Xor(0xffff_ffff, 0x31)) == 0x6f0a_661c
    ensures Eight(Xor(0x6f0a_661c, 0x32)) == 0x8caa_3b9f
    ensures Eight(Xor(0x8caa_3b9f, 0x33)) == 0xef84_d04d
    ensures Eight(Xor(0xef84_d04d, 0x34)) == 0x09c5_0b11
    ensures Eight(Xor(0x09c5_0b11, 0x35)) == 0xe72e_dcca
    ensures Eight(Xor(0xe72e_dcca, 0x36)) == 0xbeca_8e79
    ensures Eight(Xor(0xbeca_8e79, 0x37)) == 0xedbd_6815
    ensures Eight(Xor(0xedbd_6815, 0x38)) == 0x9f78_7f65
    ensures Eight(Xor(0x9f78_7f65, 0x39)) == 0x1cf9_6d7c
  {
  }

  function ZeroBytes(n: nat): (bytes: Bytes)
    ensures |bytes| == n && forall k | 0 <= k < n :: bytes[k] == 0
  {
    seq(n, _ => 0)
  }

  lemma ZeroByteIs(l: bv32, n: nat, k: nat, was: bv32, now: bv32)
    requires k < n && After(l, ZeroBytes(n), k) == was && Eight(was) == now
    ensures After(l, ZeroBytes(n), k + 1) == now
  {
    hide After, Eight, Load, Bits;
    LoadedZero();
    XorUnit(was);
    NextIs(l, ZeroBytes(n), k, was, 0, now);
  }

  /** The checksum of a zero byte is not zero. */
  lemma ChecksumOfZero()
    ensures Crc(0, [0]) == 0x527d_5351
  {
    var l: bv32 := 0xffff_ffff;
    hide Feed, BitsOf, After;
    assert ZeroBytes(1) == [0];
    StartsEmpty(l, [0]);
    ZeroByteIs(l, 1, 0, l, 0xad82_acae);
    AfterAll(l, [0]);
  }

  lemma FourZeros(l: bv32, n: nat, k: nat, was: bv32, now: bv32)
    requires k + 4 <= n && After(l, ZeroBytes(n), k) == was && Eight(Eight(Eight(Eight(was)))) == now
    ensures After(l, ZeroBytes(n), k + 4) == now
  {
    hide *;
    ZeroByteIs(l, n, k, was, Eight(was));
    ZeroByteIs(l, n, k + 1, Eight(was), Eight(Eight(was)));
    ZeroByteIs(l, n, k + 2, Eight(Eight(was)), Eight(Eight(Eight(was))));
    ZeroByteIs(l, n, k + 3, Eight(Eight(Eight(was))), now);
  }

  /** The checksum of 32 of them. */
  lemma ChecksumOfZeros()
    ensures Crc(0, ZeroBytes(32)) == 0x8a91_36aa
  {
    var l: bv32 := 0xffff_ffff;
    hide Feed, BitsOf, Eight, After, ZeroBytes;
    StartsEmpty(l, ZeroBytes(32));
    StepsOfZeros();
    FourZeros(l, 32, 0, 0xffff_ffff, 0xb798_b438);
    FourZeros(l, 32, 4, 0xb798_b438, 0x73d7_4d75);
    FourZeros(l, 32, 8, 0x73d7_4d75, 0xd49f_4aa2);
    FourZeros(l, 32, 12, 0xd49f_4aa2, 0xbd8f_6515);
    FourZeros(l, 32, 16, 0xbd8f_6515, 0x433a_a9c1);
    FourZeros(l, 32, 20, 0x433a_a9c1, 0x7b04_1311);
    FourZeros(l, 32, 24, 0x7b04_1311, 0x0836_3896);
    FourZeros(l, 32, 28, 0x0836_3896, 0x756e_c955);
    AfterAll(l, ZeroBytes(32));
  }

  lemma StepsOfZeros()
    ensures Eight(Eight(Eight(Eight(0xffff_ffff)))) == 0xb798_b438
    ensures Eight(Eight(Eight(Eight(0xb798_b438)))) == 0x73d7_4d75
    ensures Eight(Eight(Eight(Eight(0x73d7_4d75)))) == 0xd49f_4aa2
    ensures Eight(Eight(Eight(Eight(0xd49f_4aa2)))) == 0xbd8f_6515
    ensures Eight(Eight(Eight(Eight(0xbd8f_6515)))) == 0x433a_a9c1
    ensures Eight(Eight(Eight(Eight(0x433a_a9c1)))) == 0x7b04_1311
    ensures Eight(Eight(Eight(Eight(0x7b04_1311)))) == 0x0836_3896
    ensures Eight(Eight(Eight(Eight(0x0836_3896)))) == 0x756e_c955
  {
  }

  lemma AfterAll(l: bv32, buf: Bytes)
    ensures After(l, buf, |buf|) == Feed(l, BitsOf(buf))
  {
    assert buf[..|buf|] == buf;
  }
}
