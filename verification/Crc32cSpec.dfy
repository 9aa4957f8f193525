/** CRC32C as a bit-serial shift register (section 12.1 of RFC 3720), and its algebra. */
module Crc32cSpec {
  import opened Bytes

  const POLYNOMIAL: bv32 := 0x82f6_3b78
  const ALL_ONES: bv32 := 0xffff_ffff

  /** Exclusive-or, named so that proofs can use its laws without its bits. */
  function Xor(a: bv32, b: bv32): bv32 {
    a ^ b
  }

  function BitValue(bit: bool): bv32 {
    if bit then 1 else 0
  }

  /** The register takes in one message bit: the reflected polynomial is fed back when that bit
      differs from the one that falls out. */
  function FeedBit(l: bv32, bit: bool): bv32 {
    if (l & 1 == 1) != bit then (l >> 1) ^ POLYNOMIAL else l >> 1
  }

  function Feed(l: bv32, bits: seq<bool>): bv32
    decreases |bits|
  {
    if bits == [] then l else Feed(FeedBit(l, bits[0]), bits[1..])
  }

  /** The bits of a byte in the order in which they are sent: least significant first. */
  function Bits(b: Byte): (bits: seq<bool>)
    ensures |bits| == 8
  {
    LowestBits(b, 8)
  }

  function LowestBits(b: nat, n: nat): (bits: seq<bool>)
    ensures |bits| == n
  {
    if n == 0 then [] else [b % 2 == 1] + LowestBits(b / 2, n - 1)
  }

  function BitsOf(data: Bytes): seq<bool> {
    if data == [] then [] else Bits(data[0]) + BitsOf(data[1..])
  }

  /** The checksum of a string whose checksum is `crc`, followed by `data`. */
  function Crc(crc: bv32, data: Bytes): bv32 {
    Xor(Feed(Xor(crc, ALL_ONES), BitsOf(data)), ALL_ONES)
  }

  // ---- Laws of exclusive-or ----

  lemma XorSymmetric(a: bv32, b: bv32)
    ensures Xor(a, b) == Xor(b, a)
  {
  }

  lemma XorAssociative(a: bv32, b: bv32, c: bv32)
    ensures Xor(Xor(a, b), c) == Xor(a, Xor(b, c))
  {
  }

  lemma XorUnit(a: bv32)
    ensures Xor(a, a) == 0 && Xor(a, 0) == a
  {
  }

  lemma XorCancels(a: bv32, b: bv32, m: bv32)
    requires Xor(a, m) == Xor(b, m)
    ensures a == b
  {
  }

  lemma XorExchange(a: bv32, b: bv32, c: bv32, d: bv32)
    ensures Xor(Xor(a, b), Xor(c, d)) == Xor(Xor(a, c), Xor(b, d))
  {
    hide Xor;
    XorAssociative(Xor(a, b), c, d);
    XorAssociative(a, b, c);
    XorSymmetric(b, c);
    XorAssociative(a, c, b);
    XorAssociative(Xor(a, c), b, d);
  }

  // ---- Zero bits: the linear part of the register ----

  function BitStep(r: bv32): bv32 {
    if r & 1 == 1 then (r >> 1) ^ POLYNOMIAL else r >> 1
  }

  /** The register after `n` zero bits. */
  function Shift(r: bv32, n: nat): bv32
    decreases n
  {
    if n == 0 then r else Shift(BitStep(r), n - 1)
  }

  lemma ParityOfXor(a: bv32, b: bv32)
    ensures (a ^ b) & 1 == 1 <==> ((a & 1 == 1) != (b & 1 == 1))
  {
  }

  lemma BitStepLinear(a: bv32, b: bv32)
    ensures BitStep(Xor(a, b)) == Xor(BitStep(a), BitStep(b))
  {
    BitStepLinearBits(a, b);
  }

  lemma BitStepLinearBits(a: bv32, b: bv32)
    ensures BitStep(a ^ b) == BitStep(a) ^ BitStep(b)
  {
    ParityOfXor(a, b);
    if a & 1 == 1 {
      if b & 1 == 1 {} else {}
    } else {
      if b & 1 == 1 {} else {}
    }
  }

  lemma {:induction false} ShiftLinear(a: bv32, b: bv32, n: nat)
    ensures Shift(Xor(a, b), n) == Xor(Shift(a, n), Shift(b, n))
    decreases n
  {
    hide Xor, BitStep;
    if n != 0 {
      BitStepLinear(a, b);
      ShiftLinear(BitStep(a), BitStep(b), n - 1);
    }
  }

  lemma {:induction false} ShiftAdd(r: bv32, m: nat, n: nat)
    ensures Shift(r, m + n) == Shift(Shift(r, m), n)
    decreases m
  {
    hide BitStep;
    if m != 0 {
      ShiftAdd(BitStep(r), m - 1, n);
    }
  }

  /** No information falls out of the register: the top coefficient of the polynomial is set. */
  lemma BitStepInjective(a: bv32, b: bv32)
    requires BitStep(a) == BitStep(b)
    ensures a == b
  {
    hide Xor;
    BitStepLinear(a, b);
    XorUnit(BitStep(a));
    BitStepKernel(Xor(a, b));
    XorUnit(b);
    XorCancels(a, b, b);
  }

  lemma BitStepKernel(r: bv32)
    requires BitStep(r) == 0
    ensures r == 0
  {
  }

  lemma {:induction false} ShiftInjective(a: bv32, b: bv32, n: nat)
    requires Shift(a, n) == Shift(b, n)
    ensures a == b
    decreases n
  {
    hide BitStep;
    if n != 0 {
      ShiftInjective(BitStep(a), BitStep(b), n - 1);
      BitStepInjective(a, b);
    }
  }

  // ---- Feeding a message ----

  /** Feeding a bit is adding it to the register and then feeding a zero. */
  lemma FeedBitIsStep(l: bv32, bit: bool)
    ensures FeedBit(l, bit) == BitStep(Xor(l, BitValue(bit)))
  {
    ParityOfXor(l, BitValue(bit));
    if bit { assert (l ^ 1) >> 1 == l >> 1; } else { assert l ^ 0 == l; }
  }

  lemma {:induction false} FeedAppend(l: bv32, u: seq<bool>, v: seq<bool>)
    ensures Feed(l, u + v) == Feed(Feed(l, u), v)
    decreases |u|
  {
    hide FeedBit;
    if u == [] {
      assert u + v == v;
    } else {
      assert (u + v)[1..] == u[1..] + v;
      FeedAppend(FeedBit(l, u[0]), u[1..], v);
    }
  }

  lemma {:induction false} BitsOfAppend(a: Bytes, b: Bytes)
    ensures BitsOf(a + b) == BitsOf(a) + BitsOf(b)
  {
    hide Bits;
    if a == [] {
      assert a + b == b;
    } else {
      assert (a + b)[1..] == a[1..] + b;
      BitsOfAppend(a[1..], b);
    }
  }

  /** Streaming: a checksum may be continued at any split of the data. */
  lemma CrcAppend(crc: bv32, a: Bytes, b: Bytes)
    ensures Crc(Crc(crc, a), b) == Crc(crc, a + b)
  {
    hide Feed, BitsOf, Xor;
    BitsOfAppend(a, b);
    FeedAppend(Xor(crc, ALL_ONES), BitsOf(a), BitsOf(b));
    var l := Feed(Xor(crc, ALL_ONES), BitsOf(a));
    XorAssociative(l, ALL_ONES, ALL_ONES);
    XorUnit(ALL_ONES);
    XorUnit(l);
  }

  // ---- Up to 32 bits at once ----

  function Double(w: bv32): bv32 {
    w << 1
  }

  function SetLow(w: bv32): bv32 {
    1 | w
  }

  /** Bit `bit` in front of, that is below, the bits of `rest`. */
  function Prepend(bit: bool, rest: bv32): bv32 {
    if bit then SetLow(Double(rest)) else Double(rest)
  }

  /** The word whose bit `i` is `bits[i]`. */
  function Pack(bits: seq<bool>): bv32 {
    if bits == [] then 0 else Prepend(bits[0], Pack(bits[1..]))
  }

  predicate TopClear(w: bv32) {
    w & 0x8000_0000 == 0
  }

  function Or(a: bv32, b: bv32): bv32 {
    a | b
  }

  /** `w` has no bit that `mask` lacks. */
  predicate Within(w: bv32, mask: bv32) {
    Or(w, mask) == mask
  }

  /** The word with the `n` lowest bits set. */
  function Low(n: nat): bv32 {
    if n == 0 then 0 else Prepend(true, Low(n - 1))
  }

  lemma OrDoubled(p: bv32, mask: bv32)
    ensures Or(Double(p), Double(mask)) == Double(Or(p, mask))
  {
  }

  lemma OrLowSet(p: bv32, mask: bv32)
    ensures Or(p, SetLow(mask)) == SetLow(Or(p, mask))
  {
  }

  lemma OrBothLowSet(p: bv32, mask: bv32)
    ensures Or(SetLow(p), SetLow(mask)) == SetLow(Or(p, mask))
  {
  }

  lemma OrPrepended(bit: bool, p: bv32, mask: bv32)
    ensures Or(Prepend(bit, p), Prepend(true, mask)) == Prepend(true, Or(p, mask))
  {
    hide Or, Double, SetLow;
    OrDoubled(p, mask);
    OrLowSet(Double(p), Double(mask));
    OrBothLowSet(Double(p), Double(mask));
  }

  lemma PrependWithin(bit: bool, p: bv32, mask: bv32)
    requires Within(p, mask)
    ensures Within(Prepend(bit, p), Prepend(true, mask))
  {
    hide Or, Prepend;
    OrPrepended(bit, p, mask);
  }

  lemma {:induction false} LowWithin(m: nat, n: nat)
    requires m <= n
    ensures Within(Low(m), Low(n))
  {
    hide Within, Prepend;
    if m != 0 {
      LowWithin(m - 1, n - 1);
      PrependWithin(true, Low(m - 1), Low(n - 1));
    } else {
      ZeroWithin(Low(n));
    }
  }

  lemma ZeroWithin(mask: bv32)
    ensures Within(0, mask)
  {
  }

  lemma WithinLow31(w: bv32, mask: bv32)
    requires Within(w, mask) && Within(mask, Low(31))
    ensures TopClear(w)
  {
    assert Low(8) == 0xff;
    assert Low(16) == 0xffff;
    assert Low(24) == 0xff_ffff;
    assert Low(31) == 0x7fff_ffff;
  }

  lemma {:induction false} PackWithin(bits: seq<bool>)
    ensures Within(Pack(bits), Low(|bits|))
  {
    hide Within, Prepend;
    if bits != [] {
      PackWithin(bits[1..]);
      PrependWithin(bits[0], Pack(bits[1..]), Low(|bits| - 1));
    } else {
      ZeroWithin(0);
    }
  }

  lemma PackTopClear(bits: seq<bool>)
    requires |bits| <= 31
    ensures TopClear(Pack(bits))
  {
    hide *;
    PackWithin(bits);
    LowWithin(|bits|, 31);
    WithinLow31(Pack(bits), Low(|bits|));
  }

  lemma StepPrepend(rest: bv32)
    requires TopClear(rest)
    ensures BitStep(Prepend(false, rest)) == rest
  {
  }

  lemma XorIntoDoubled(rest: bv32)
    ensures Xor(1, Double(rest)) == SetLow(Double(rest))
  {
  }

  lemma PrependIsXor(bit: bool, rest: bv32)
    ensures Prepend(bit, rest) == Xor(BitValue(bit), Prepend(false, rest))
  {
    hide Xor, Double, SetLow;
    XorIntoDoubled(rest);
    XorSymmetric(0, Double(rest));
    XorUnit(Double(rest));
  }

  lemma FeedBitPrepended(l: bv32, bit: bool, rest: bv32)
    requires TopClear(rest)
    ensures BitStep(Xor(l, Prepend(bit, rest))) == Xor(FeedBit(l, bit), rest)
  {
    hide *;
    var shifted := Prepend(false, rest);
    FeedBitIsStep(l, bit);
    PrependIsXor(bit, rest);
    XorAssociative(l, BitValue(bit), shifted);
    BitStepLinear(Xor(l, BitValue(bit)), shifted);
    StepPrepend(rest);
  }

  /** Feeding at most 32 bits is one exclusive-or followed by as many zero bits. */
  lemma {:induction false} FeedPacked(l: bv32, bits: seq<bool>)
    requires |bits| <= 32
    ensures Feed(l, bits) == Shift(Xor(l, Pack(bits)), |bits|)
    decreases |bits|
  {
    hide Xor, BitStep, FeedBit, Prepend, TopClear;
    if bits == [] {
      XorUnit(l);
    } else {
      PackTopClear(bits[1..]);
      FeedBitPrepended(l, bits[0], Pack(bits[1..]));
      FeedPacked(FeedBit(l, bits[0]), bits[1..]);
    }
  }

  lemma PrependInjective(a: bool, p: bv32, b: bool, q: bv32)
    requires TopClear(p) && TopClear(q)
    requires Prepend(a, p) == Prepend(b, q)
    ensures a == b && p == q
  {
  }

  lemma {:induction false} PackInjective(u: seq<bool>, v: seq<bool>)
    requires |u| == |v| <= 32
    requires Pack(u) == Pack(v)
    ensures u == v
  {
    hide Prepend, TopClear;
    if u != [] {
      PackTopClear(u[1..]);
      PackTopClear(v[1..]);
      PrependInjective(u[0], Pack(u[1..]), v[0], Pack(v[1..]));
      PackInjective(u[1..], v[1..]);
      assert u == [u[0]] + u[1..] && v == [v[0]] + v[1..];
    }
  }

  // ---- What the checksum detects ----

  lemma {:induction false} FeedInjective(l: bv32, m: bv32, bits: seq<bool>)
    requires Feed(l, bits) == Feed(m, bits)
    ensures l == m
    decreases |bits|
  {
    hide Xor, FeedBit, BitStep, BitValue;
    if bits != [] {
      FeedInjective(FeedBit(l, bits[0]), FeedBit(m, bits[0]), bits[1..]);
      FeedBitIsStep(l, bits[0]);
      FeedBitIsStep(m, bits[0]);
      BitStepInjective(Xor(l, BitValue(bits[0])), Xor(m, BitValue(bits[0])));
      XorCancels(l, m, BitValue(bits[0]));
    }
  }

  /** Burst errors: messages that differ only inside a window of at most 32 bits leave the register
      in different states, whatever stands before and after the window. */
  lemma BurstDetected(l: bv32, before: seq<bool>, u: seq<bool>, v: seq<bool>, after: seq<bool>)
    requires |u| == |v| <= 32 && u != v
    ensures Feed(l, before + u + after) != Feed(l, before + v + after)
  {
    hide *;
    var m := Feed(l, before);
    FeedAppend(l, before, u);
    FeedAppend(l, before, v);
    FeedAppend(l, before + u, after);
    FeedAppend(l, before + v, after);
    if Feed(Feed(m, u), after) == Feed(Feed(m, v), after) {
      FeedInjective(Feed(m, u), Feed(m, v), after);
      FeedSameWindow(m, u, v);
    }
  }

  lemma FeedSameWindow(m: bv32, u: seq<bool>, v: seq<bool>)
    requires |u| == |v| <= 32
    requires Feed(m, u) == Feed(m, v)
    ensures u == v
  {
    hide *;
    FeedPacked(m, u);
    FeedPacked(m, v);
    ShiftInjective(Xor(m, Pack(u)), Xor(m, Pack(v)), |u|);
    XorSymmetric(m, Pack(u));
    XorSymmetric(m, Pack(v));
    XorCancels(Pack(u), Pack(v), m);
    PackInjective(u, v);
  }

  function XorBits(u: seq<bool>, v: seq<bool>): (e: seq<bool>)
    requires |u| == |v|
    ensures |e| == |u|
  {
    if u == [] then [] else [u[0] != v[0]] + XorBits(u[1..], v[1..])
  }

  lemma XorOfBits(a: bool, b: bool)
    ensures Xor(BitValue(a), BitValue(b)) == BitValue(a != b)
  {
  }

  lemma FeedBitLinear(l: bv32, m: bv32, a: bool, b: bool)
    ensures FeedBit(Xor(l, m), a != b) == Xor(FeedBit(l, a), FeedBit(m, b))
  {
    hide Xor, FeedBit, BitStep;
    FeedBitIsStep(l, a);
    FeedBitIsStep(m, b);
    FeedBitIsStep(Xor(l, m), a != b);
    BitStepLinear(Xor(l, BitValue(a)), Xor(m, BitValue(b)));
    XorExchange(l, BitValue(a), m, BitValue(b));
    XorOfBits(a, b);
  }

  lemma {:induction false} FeedLinear(l: bv32, m: bv32, u: seq<bool>, v: seq<bool>)
    requires |u| == |v|
    ensures Feed(Xor(l, m), XorBits(u, v)) == Xor(Feed(l, u), Feed(m, v))
    decreases |u|
  {
    hide Xor, FeedBit;
    if u != [] {
      FeedBitLinear(l, m, u[0], v[0]);
      FeedLinear(FeedBit(l, u[0]), FeedBit(m, v[0]), u[1..], v[1..]);
      assert XorBits(u, v)[1..] == XorBits(u[1..], v[1..]);
    }
  }

  /** An alteration goes unnoticed exactly when the error pattern, fed into a zero register, leaves
      it zero: neither the initial value nor the message plays a part. */
  lemma UndetectedIff(crc: bv32, a: Bytes, b: Bytes)
    requires |BitsOf(a)| == |BitsOf(b)|
    ensures Crc(crc, a) == Crc(crc, b) <==> Feed(0, XorBits(BitsOf(a), BitsOf(b))) == 0
  {
    hide Feed, BitsOf, XorBits, Xor;
    var l := Xor(crc, ALL_ONES);
    var f, g := Feed(l, BitsOf(a)), Feed(l, BitsOf(b));
    FeedLinear(l, l, BitsOf(a), BitsOf(b));
    XorUnit(l);
    XorUnit(g);
    if Xor(f, g) == 0 { XorCancels(f, g, g); }
    if Xor(f, ALL_ONES) == Xor(g, ALL_ONES) { XorCancels(f, g, ALL_ONES); }
  }

  // ---- Parity ----

  predicate LowBit(w: bv32) {
    w & 1 == 1
  }

  function Halved(w: bv32): bv32 {
    w >> 1
  }

  lemma HalvedWithin(w: bv32, mask: bv32)
    requires TopClear(mask) && Within(w, Prepend(true, mask))
    ensures Within(Halved(w), mask)
  {
  }

  lemma WithinNothing(w: bv32)
    requires Within(w, 0)
    ensures w == 0
  {
  }

  lemma LowTopClear(n: nat)
    requires n <= 31
    ensures TopClear(Low(n))
  {
    hide *;
    LowWithin(n, 31);
    LowWithin(n, n);
    WithinLow31(Low(n), Low(n));
  }

  /** The `n` low bits have an odd number of ones among them. */
  predicate OddIn(w: bv32, n: nat) {
    if n == 0 then false else LowBit(w) != OddIn(Halved(w), n - 1)
  }

  predicate Odd(w: bv32) {
    OddIn(w, 32)
  }

  lemma HalvedXor(a: bv32, b: bv32)
    ensures Halved(Xor(a, b)) == Xor(Halved(a), Halved(b))
    ensures LowBit(Xor(a, b)) <==> LowBit(a) != LowBit(b)
  {
  }

  lemma {:induction false} OddInXor(a: bv32, b: bv32, n: nat)
    ensures OddIn(Xor(a, b), n) <==> OddIn(a, n) != OddIn(b, n)
    decreases n
  {
    hide Xor, LowBit, Halved;
    if n != 0 {
      HalvedXor(a, b);
      OddInXor(Halved(a), Halved(b), n - 1);
    }
  }

  /** Bits that are clear do not count. */
  lemma {:induction false} OddInHigh(w: bv32, n: nat)
    requires n <= 31 && Within(w, Low(n))
    ensures OddIn(w, n + 1) == OddIn(w, n)
    decreases n
  {
    hide Within, Prepend, LowBit, Halved, TopClear;
    if n == 0 {
      WithinNothing(w);
      ZeroIsEven();
    } else {
      LowTopClear(n - 1);
      HalvedWithin(w, Low(n - 1));
      OddInHigh(Halved(w), n - 1);
    }
  }

  lemma ZeroIsEven()
    ensures !OddIn(0, 1) && !OddIn(0, 0) && !Odd(0)
  {
    hide LowBit, Halved;
    NoneIn(0);
    NoneIn(1);
    NoneIn(32);
  }

  lemma {:induction false} NoneIn(n: nat)
    ensures !OddIn(0, n)
    decreases n
  {
    hide LowBit, Halved;
    if n > 0 {
      ZeroHalved();
      NoneIn(n - 1);
    }
  }

  lemma ZeroHalved()
    ensures Halved(0) == Halved(1) == 0 && !LowBit(0) && LowBit(1)
  {
  }

  lemma OneIsOdd()
    ensures Odd(1)
  {
    hide LowBit, Halved;
    ZeroHalved();
    NoneIn(31);
  }

  lemma HalvedFits(w: bv32)
    ensures Within(Halved(w), Low(31))
  {
    assert Low(8) == 0xff;
    assert Low(16) == 0xffff;
    assert Low(24) == 0xff_ffff;
    assert Low(31) == 0x7fff_ffff;
  }

  lemma OddStep(w: bv32, n: nat)
    ensures OddIn(w, n + 1) <==> LowBit(w) != OddIn(Halved(w), n)
  {
  }

  lemma OddNibble(w: bv32, n: nat)
    ensures OddIn(w, n + 4) <==>
      ((LowBit(w) != LowBit(w >> 1)) != (LowBit(w >> 2) != LowBit(w >> 3))) != OddIn(w >> 4, n)
  {
    hide LowBit, OddIn;
    OddStep(w, n + 3);
    OddStep(w >> 1, n + 2);
    OddStep(w >> 2, n + 1);
    OddStep(w >> 3, n);
    assert (w >> 1) >> 1 == w >> 2 && (w >> 2) >> 1 == w >> 3 && (w >> 3) >> 1 == w >> 4;
  }

  /** The polynomial, its leading term apart, has an odd number of terms. */
  lemma PolynomialIsOdd()
    ensures Odd(POLYNOMIAL)
  {
    hide OddIn;
    OddNibble(0x82f6_3b78, 28);
    OddNibble(0x82f_63b7, 24);
    OddNibble(0x82_f63b, 20);
    OddNibble(0x8_2f63, 16);
    OddNibble(0x82f6, 12);
    OddNibble(0x82f, 8);
    OddNibble(0x82, 4);
    OddNibble(0x8, 0);
    ZeroIsEven();
  }

  /** What falls out of the register is made up for by what is fed back. */
  lemma BitStepKeepsParity(r: bv32)
    ensures Odd(BitStep(r)) == Odd(r)
  {
    BitStepHalves(r);
    HalvedFits(r);
    OddInHigh(Halved(r), 31);
    PolynomialIsOdd();
    hide Halved, LowBit, Xor, BitStep, OddIn;
    OddInIs(r);
    OddInXor(Halved(r), POLYNOMIAL, 32);
  }

  lemma BitStepHalves(r: bv32)
    ensures BitStep(r) == if LowBit(r) then Xor(Halved(r), POLYNOMIAL) else Halved(r)
  {
  }

  lemma OddInIs(w: bv32)
    ensures OddIn(w, 32) == (LowBit(w) != OddIn(Halved(w), 31))
  {
  }

  function Ones(bits: seq<bool>): nat {
    if bits == [] then 0 else (if bits[0] then 1 else 0) + Ones(bits[1..])
  }

  /** Every one that is fed changes the parity of the register, and nothing else does. */
  lemma {:induction false} FeedParity(l: bv32, bits: seq<bool>)
    ensures Odd(Feed(l, bits)) <==> Odd(l) != (Ones(bits) % 2 == 1)
    decreases |bits|
  {
    hide Xor, FeedBit, BitStep, BitValue, Odd;
    if bits != [] {
      FeedBitParity(l, bits[0]);
      FeedParity(FeedBit(l, bits[0]), bits[1..]);
    }
  }

  lemma FeedBitParity(l: bv32, bit: bool)
    ensures Odd(FeedBit(l, bit)) <==> Odd(l) != bit
  {
    hide Xor, FeedBit, BitStep, OddIn;
    FeedBitIsStep(l, bit);
    BitStepKeepsParity(Xor(l, BitValue(bit)));
    OddInXor(l, BitValue(bit), 32);
    ZeroIsEven();
    OneIsOdd();
  }

  /** An odd number of altered bits never goes unnoticed, wherever they are. */
  lemma OddErrorsDetected(crc: bv32, a: Bytes, b: Bytes)
    requires |BitsOf(a)| == |BitsOf(b)| && Ones(XorBits(BitsOf(a), BitsOf(b))) % 2 == 1
    ensures Crc(crc, a) != Crc(crc, b)
  {
    hide *;
    UndetectedIff(crc, a, b);
    FeedParity(0, XorBits(BitsOf(a), BitsOf(b)));
    ZeroIsEven();
  }
}
