/** util/coding: little-endian fixed-width numbers, and base-128 varints (unsigned LEB128, section 7.6
    of the DWARF 4 standard). */
module Coding {
  import opened Arithmetic
  import opened Bytes

  const TWO_32: nat := 0x1_0000_0000
  const TWO_64: nat := 0x1_0000_0000_0000_0000

  /** A conversion to `uint32_t`. */
  function ToUint32(n: nat): (r: nat)
    ensures r < TWO_32 && (n < TWO_32 ==> r == n)
  {
    n % TWO_32
  }

  lemma WrappedSum(base: nat, n: nat)
    requires base + ToUint32(n) < TWO_32
    ensures ToUint32(base + n) == base + ToUint32(n)
  {
    var q := n / TWO_32;
    assert base + n == TWO_32 * q + (base + n % TWO_32);
  }

  lemma Widths()
    ensures Pow(256, 4) == TWO_32 && Pow(256, 8) == TWO_64
    ensures Pow(128, 5) == 0x8_0000_0000 && Pow(128, 10) == 0x40_0000_0000_0000_0000
  {
    assert Pow(128, 4) == 0x1000_0000;
    assert Pow(128, 8) == 0x100_0000_0000_0000;
  }

  // ---- Fixed width ----

  /** The `k` low bytes of `n`, lowest first: what `memcpy` of an integer leaves on a little-endian
      machine. */
  function Fixed(n: nat, k: nat): (bytes: Bytes)
    ensures |bytes| == k
    decreases k
  {
    if k == 0 then [] else [n % 256] + Fixed(n / 256, k - 1)
  }

  function FixedValue(bytes: Bytes): nat {
    if bytes == [] then 0 else bytes[0] + 256 * FixedValue(bytes[1..])
  }

  lemma {:induction false} FixedRoundTrip(n: nat, k: nat)
    requires n < Pow(256, k)
    ensures FixedValue(Fixed(n, k)) == n
    decreases k
  {
    if k != 0 {
      FixedRoundTrip(n / 256, k - 1);
      assert Fixed(n, k)[1..] == Fixed(n / 256, k - 1);
    }
  }

  lemma {:induction false} FixedOfValue(bytes: Bytes)
    ensures FixedValue(bytes) < Pow(256, |bytes|)
    ensures Fixed(FixedValue(bytes), |bytes|) == bytes
  {
    if bytes != [] {
      FixedOfValue(bytes[1..]);
      LowestByte(bytes[0], FixedValue(bytes[1..]));
    }
  }

  lemma LowestByte(b: Byte, v: nat)
    ensures (b + 256 * v) % 256 == b && (b + 256 * v) / 256 == v
  {
  }

  lemma {:induction false} FixedValueAppend(a: Bytes, b: Bytes)
    ensures FixedValue(a + b) == FixedValue(a) + Pow(256, |a|) * FixedValue(b)
  {
    if a == [] {
      assert a + b == b;
    } else {
      FixedValueAppend(a[1..], b);
      assert (a + b)[1..] == a[1..] + b;
      Scaled(a[0], FixedValue(a[1..]), Pow(256, |a| - 1), FixedValue(b));
    }
  }

  lemma Scaled(low: nat, more: nat, scale: nat, rest: nat)
    ensures low + 256 * (more + scale * rest) == (low + 256 * more) + 256 * scale * rest
  {
    var x := scale * rest;
    assert 256 * scale * rest == 256 * x;
  }

  lemma FixedValueInjective(a: Bytes, b: Bytes)
    requires |a| == |b| && FixedValue(a) == FixedValue(b)
    ensures a == b
  {
    FixedOfValue(a);
    FixedOfValue(b);
  }

  function Fixed32(n: nat): (bytes: Bytes)
    ensures |bytes| == 4
  {
    Fixed(n, 4)
  }

  function Fixed64(n: nat): (bytes: Bytes)
    ensures |bytes| == 8
  {
    Fixed(n, 8)
  }

  lemma FixedSplits(n: nat, k: nat)
    ensures Fixed(n, k + 1) == [n % 256] + Fixed(n / 256, k)
  {
  }

  /** The lowest byte comes first. */
  lemma FixedExamples()
    ensures Fixed32(0x0403_0201) == [1, 2, 3, 4]
    ensures Fixed64(0x0807_0605_0403_0201) == [1, 2, 3, 4, 5, 6, 7, 8]
  {
    FixedSplits(8, 0);
    FixedSplits(0x0807, 1);
    FixedSplits(0x08_0706, 2);
    FixedSplits(0x0807_0605, 3);
    FixedSplits(0x08_0706_0504, 4);
    FixedSplits(0x0807_0605_0403, 5);
    FixedSplits(0x08_0706_0504_0302, 6);
    FixedSplits(0x0807_0605_0403_0201, 7);
    FixedSplits(4, 0);
    FixedSplits(0x0403, 1);
    FixedSplits(0x04_0302, 2);
    FixedSplits(0x0403_0201, 3);
    hide Fixed;
  }

  lemma Fixed32RoundTrip(n: nat)
    requires n < TWO_32
    ensures FixedValue(Fixed32(n)) == n
  {
    Widths();
    FixedRoundTrip(n, 4);
  }

  lemma Fixed64RoundTrip(n: nat)
    requires n < TWO_64
    ensures FixedValue(Fixed64(n)) == n
  {
    Widths();
    FixedRoundTrip(n, 8);
  }

  method PutFixed32(dst: ByteString, value: nat)
    modifies dst
    ensures dst.data == old(dst.data) + Fixed32(value)
  {
    dst.data := dst.data + Fixed32(value);
  }

  // ---- Varints: writing ----

  /** Groups of seven bits, lowest first; all but the last carry the bit 128. */
  function Varint(n: nat): (bytes: Bytes)
    ensures |bytes| > 0
  {
    if n < 128 then [n] else [128 + n % 128] + Varint(n / 128)
  }

  /** The examples of the DWARF standard. */
  lemma VarintExamples()
    ensures Varint(2) == [2] && Varint(127) == [0x7f] && Varint(128) == [0x80, 1] && Varint(129) == [0x81, 1]
    ensures Varint(130) == [0x82, 1] && Varint(12857) == [0xb9, 0x64]
  {
    assert Varint(1) == [1] && Varint(100) == [0x64];
  }

  lemma {:induction false} VarintSize(n: nat, k: nat)
    requires k > 0 && n < Pow(128, k)
    ensures |Varint(n)| <= k
    decreases k
  {
    if n >= 128 {
      assert Pow(128, 1) == 128;
      VarintSize(n / 128, k - 1);
    }
  }

  lemma VarintSizes(n: nat)
    ensures n < TWO_32 ==> |Varint(n)| <= 5
    ensures n < TWO_64 ==> |Varint(n)| <= 10
  {
    hide Pow;
    Widths();
    if n < TWO_32 { VarintSize(n, 5); }
    if n < TWO_64 { VarintSize(n, 10); }
  }

  /** `v | B`, stored into a byte. */
  function Continued(v: nat): Byte {
    128 + v % 128
  }

  method EncodeVarint32(v: nat) returns (bytes: Bytes)
    requires v < TWO_32
    ensures bytes == Varint(v)
  {
    VarintUnfolded(v);
    if v < 0x80 {
      bytes := [v];
    } else if v < 0x4000 {
      bytes := [Continued(v), v / 0x80];
    } else if v < 0x20_0000 {
      bytes := [Continued(v), Continued(v / 0x80), v / 0x4000];
    } else if v < 0x1000_0000 {
      bytes := [Continued(v), Continued(v / 0x80), Continued(v / 0x4000), v / 0x20_0000];
    } else {
      bytes := [Continued(v), Continued(v / 0x80), Continued(v / 0x4000), Continued(v / 0x20_0000), v / 0x1000_0000];
    }
  }

  lemma VarintStep(n: nat)
    ensures Varint(n) == if n < 128 then [n] else [Continued(n)] + Varint(n / 128)
  {
  }

  lemma VarintUnfolded(v: nat)
    requires v < TWO_32
    ensures v < 0x80 ==> Varint(v) == [v]
    ensures 0x80 <= v < 0x4000 ==> Varint(v) == [Continued(v), v / 0x80]
    ensures 0x4000 <= v < 0x20_0000 ==> Varint(v) == [Continued(v), Continued(v / 0x80), v / 0x4000]
    ensures 0x20_0000 <= v < 0x1000_0000 ==>
      Varint(v) == [Continued(v), Continued(v / 0x80), Continued(v / 0x4000), v / 0x20_0000]
    ensures 0x1000_0000 <= v ==>
      Varint(v) == [Continued(v), Continued(v / 0x80), Continued(v / 0x4000), Continued(v / 0x20_0000),
                    v / 0x1000_0000]
  {
    hide Varint, Continued;
    assert v / 0x80 / 0x80 == v / 0x4000;
    assert v / 0x4000 / 0x80 == v / 0x20_0000;
    assert v / 0x20_0000 / 0x80 == v / 0x1000_0000;
    VarintStep(v);
    VarintStep(v / 0x80);
    VarintStep(v / 0x4000);
    VarintStep(v / 0x20_0000);
    VarintStep(v / 0x1000_0000);
  }

  method EncodeVarint64(value: nat) returns (bytes: Bytes)
    ensures bytes == Varint(value)
  {
    var v := value;
    bytes := [];
    while v >= 128
      invariant bytes + Varint(v) == Varint(value)
    {
      assert Varint(v) == [Continued(v)] + Varint(v / 128);
      bytes := bytes + [Continued(v)];
      v := v / 128;
    }
    bytes := bytes + [v];
  }

  method VarintLength(value: nat) returns (len: nat)
    ensures len == |Varint(value)|
  {
    var v := value;
    len := 1;
    while v >= 128
      invariant len + |Varint(v)| == 1 + |Varint(value)|
    {
      v := v / 128;
      len := len + 1;
    }
  }

  method PutVarint64(dst: ByteString, v: nat)
    modifies dst
    ensures dst.data == old(dst.data) + Varint(v)
  {
    var bytes := EncodeVarint64(v);
    dst.data := dst.data + bytes;
  }

  // ---- Varints: reading ----

  datatype Parsed = Parsed(value: nat, length: nat)

  /** The number at the front of `data`, spelled in at most `limit` bytes. */
  function ParseGroups(data: Bytes, limit: nat): (r: Option<Parsed>)
    ensures r.Some? ==> 1 <= r.value.length <= |data| && r.value.length <= limit
    decreases limit
  {
    if limit == 0 || data == [] then None
    else if data[0] < 128 then Some(Parsed(data[0], 1))
    else
      match ParseGroups(data[1..], limit - 1)
      case None => None
      case Some(rest) => Some(Parsed(data[0] - 128 + 128 * rest.value, rest.length + 1))
  }

  /** Reading back what was written, whatever follows it. */
  lemma {:induction false} VarintRoundTrip(n: nat, rest: Bytes, limit: nat)
    requires |Varint(n)| <= limit
    ensures ParseGroups(Varint(n) + rest, limit) == Some(Parsed(n, |Varint(n)|))
    decreases limit
  {
    if n >= 128 {
      VarintRoundTrip(n / 128, rest, limit - 1);
      assert (Varint(n) + rest)[1..] == Varint(n / 128) + rest;
    }
  }

  /** `GetVarint32Ptr` on the bytes from `p` to `limit`: bits above the 32nd are lost. */
  function ParseVarint32(data: Bytes): (r: Option<Parsed>)
    ensures r.Some? ==> 1 <= r.value.length <= |data| && r.value.length <= 5 && r.value.value < TWO_32
  {
    match ParseGroups(data, 5)
    case None => None
    case Some(r) => Some(Parsed(r.value % TWO_32, r.length))
  }

  /** A number is found exactly if one of the first five bytes does not continue; it ends at the first such byte. */
  lemma ParsedIff(data: Bytes)
    ensures ParseVarint32(data).Some? <==> exists i | 0 <= i < |data| :: i < 5 && data[i] < 128
    ensures ParseVarint32(data).Some? ==>
      var n := ParseVarint32(data).value.length;
      data[n - 1] < 128 && forall i | 0 <= i < n - 1 :: data[i] >= 128
  {
    GroupsIff(data, 5);
  }

  lemma {:induction false} GroupsIff(data: Bytes, limit: nat)
    ensures ParseGroups(data, limit).Some? <==> exists i | 0 <= i < |data| :: i < limit && data[i] < 128
    ensures ParseGroups(data, limit).Some? ==>
      var n := ParseGroups(data, limit).value.length;
      1 <= n <= |data| && data[n - 1] < 128 && forall i | 0 <= i < n - 1 :: data[i] >= 128
    decreases limit
  {
    if limit > 0 && data != [] && data[0] >= 128 {
      GroupsIff(data[1..], limit - 1);
      if i :| 0 <= i < |data| && i < limit && data[i] < 128 {
        assert data[1..][i - 1] < 128;
      }
    }
  }

  /** The fifth byte has room for four bits; the others are lost. */
  lemma LostBits()
    ensures ParseVarint32([0xff, 0xff, 0xff, 0xff, 0x7f]) == Some(Parsed(0xffff_ffff, 5))
    ensures ParseVarint32([0x80, 0x80, 0x80, 0x80, 0x80, 0]) == None
  {
    assert ParseGroups([0x7f], 1) == Some(Parsed(0x7f, 1));
    assert ParseGroups([0xff, 0x7f], 2) == Some(Parsed(0x3fff, 2));
    assert ParseGroups([0xff, 0xff, 0x7f], 3) == Some(Parsed(0x1f_ffff, 3));
    assert ParseGroups([0xff, 0xff, 0xff, 0x7f], 4) == Some(Parsed(0xfff_ffff, 4));
    ParsedIff([0x80, 0x80, 0x80, 0x80, 0x80, 0]);
  }

  lemma Varint32RoundTrip(n: nat, rest: Bytes)
    requires n < TWO_32
    ensures |Varint(n)| <= 5
    ensures ParseVarint32(Varint(n) + rest) == Some(Parsed(n, |Varint(n)|))
  {
    VarintSizes(n);
    VarintRoundTrip(n, rest, 5);
  }

  /** The value of seven-bit group `i`, or of the groups from `i` on. */
  function AtGroup(i: nat, v: nat): nat {
    Pow(128, i) * v
  }

  /** What is left to read once the first `i` bytes, which all continue, have given `low`. */
  ghost predicate ReadsOn(data: Bytes, i: nat, low: nat)
    requires i <= |data| && i <= 5
  {
    ParseGroups(data, 5) ==
    match ParseGroups(data[i..], 5 - i)
    case None => None
    case Some(r) => Some(Parsed(low + AtGroup(i, r.value), i + r.length))
  }

  lemma ReadsLastByte(data: Bytes, i: nat, low: nat)
    requires i < |data| && i < 5 && ReadsOn(data, i, low) && data[i] < 128
    ensures ParseGroups(data, 5) == Some(Parsed(low + AtGroup(i, data[i]), i + 1))
  {
    hide ParseGroups, AtGroup;
    GroupsStep(data[i..], 5 - i);
  }

  lemma ReadsByte(data: Bytes, i: nat, low: nat)
    requires i < |data| && i < 5 && ReadsOn(data, i, low) && data[i] >= 128
    ensures ReadsOn(data, i + 1, low + AtGroup(i, data[i] - 128))
  {
    hide ParseGroups, AtGroup;
    GroupsStep(data[i..], 5 - i);
    assert data[i..][1..] == data[i + 1..];
    match ParseGroups(data[i + 1..], 4 - i)
    case None =>
    case Some(r) => SplitGroups(i, data[i] - 128, r.value);
  }

  lemma GroupsStep(data: Bytes, limit: nat)
    requires limit > 0 && data != []
    ensures ParseGroups(data, limit) ==
            if data[0] < 128 then Some(Parsed(data[0], 1))
            else
              match ParseGroups(data[1..], limit - 1)
              case None => None
              case Some(rest) => Some(Parsed(data[0] - 128 + 128 * rest.value, rest.length + 1))
  {
  }

  lemma SplitGroups(i: nat, group: nat, rest: nat)
    ensures AtGroup(i, group + 128 * rest) == AtGroup(i, group) + AtGroup(i + 1, rest)
  {
    Distribute(Pow(128, i), group, rest);
  }

  lemma Distribute(scale: nat, group: nat, rest: nat)
    ensures scale * (group + 128 * rest) == scale * group + 128 * scale * rest
  {
  }

  /** `GetVarint32Ptr`, with its fast path for one byte, on the bytes from `p` to `limit`. */
  method GetVarint32Ptr(data: Bytes) returns (r: Option<Parsed>)
    ensures r == ParseVarint32(data)
  {
    if |data| > 0 && data[0] < 128 {
      return Some(Parsed(data[0], 1));
    }
    r := GetVarint32PtrFallback(data);
  }

  method GetVarint32PtrFallback(data: Bytes) returns (r: Option<Parsed>)
    ensures r == ParseVarint32(data)
  {
    hide ParseGroups, AtGroup, ReadsOn;
    var result, p: nat := 0, 0;
    ghost var low: nat := 0;
    ReadsFromStart(data);
    while p < 5 && p < |data|
      invariant p <= 5 && p <= |data|
      invariant ReadsOn(data, p, low) && result == low % TWO_32
      decreases |data| - p
    {
      var byte := data[p];
      var group := AtGroup(p, byte % 128);
      AddModulo(low, group);
      result := (result + group) % TWO_32;
      if byte < 128 {
        ReadsLastByte(data, p, low);
        return Some(Parsed(result, p + 1));
      }
      ReadsByte(data, p, low);
      low := low + group;
      p := p + 1;
    }
    NothingLeft(data, p, low);
    r := None;
  }

  lemma ReadsFromStart(data: Bytes)
    ensures ReadsOn(data, 0, 0)
  {
    assert data[0..] == data;
  }

  lemma NothingLeft(data: Bytes, p: nat, low: nat)
    requires p <= 5 && p <= |data| && (p == 5 || p == |data|) && ReadsOn(data, p, low)
    ensures ParseGroups(data, 5) == None
  {
  }

  lemma AddModulo(low: nat, more: nat)
    ensures (low % TWO_32 + more) % TWO_32 == (low + more) % TWO_32
  {
  }

  /** `GetVarint32`: on success the slice is advanced past the number. */
  method GetVarint32(input: ByteString) returns (value: Option<nat>)
    modifies input
    ensures match ParseVarint32(old(input.data))
            case None => value == None && input.data == old(input.data)
            case Some(r) => value == Some(r.value) && input.data == old(input.data)[r.length..]
  {
    var q := GetVarint32Ptr(input.data);
    if q == None {
      return None;
    }
    input.data := input.data[q.value.length..];
    value := Some(q.value.value);
  }

  // ---- 64-bit varints: the repository declares their reader but has no body for it ----

  type Varint64Reader = Bytes -> Option<Parsed>

  /** The reader takes back what `PutVarint64` writes, whatever follows it. */
  ghost predicate ReadsVarints(read: Varint64Reader) {
    && (forall n: nat, rest: Bytes {:trigger Varint(n) + rest} :: n < TWO_64 ==>
          read(Varint(n) + rest) == Some(Parsed(n, |Varint(n)|)))
    && (forall data: Bytes {:trigger read(data)} :: read(data).Some? ==>
          read(data).value.length <= |data| && read(data).value.value < TWO_64)
  }

  /** The reading that `GetVarint32Ptr` suggests for 64 bits: at most ten bytes. */
  function ParseVarint64(data: Bytes): (r: Option<Parsed>)
  {
    match ParseGroups(data, 10)
    case None => None
    case Some(r) => Some(Parsed(r.value % TWO_64, r.length))
  }

  lemma ParseVarint64ReadsVarints()
    ensures ReadsVarints(ParseVarint64)
  {
    forall n: nat, rest: Bytes | n < TWO_64
      ensures ParseVarint64(Varint(n) + rest) == Some(Parsed(n, |Varint(n)|))
    {
      Varint64RoundTrip(n, rest);
    }
  }

  lemma Varint64RoundTrip(n: nat, rest: Bytes)
    requires n < TWO_64
    ensures ParseVarint64(Varint(n) + rest) == Some(Parsed(n, |Varint(n)|))
  {
    hide Varint, ParseGroups;
    VarintSizes(n);
    VarintRoundTrip(n, rest, 10);
  }
}
