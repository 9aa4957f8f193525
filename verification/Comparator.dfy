/** util/comparator.cpp and `Slice::compare`: byte-wise order, separators and successors. */
module BytewiseComparator {
  import opened Bytes
  import opened KeyOrder

  /** How far two strings agree. */
  function CommonPrefix(a: Bytes, b: Bytes): (n: nat)
    ensures n <= |a| && n <= |b| && a[..n] == b[..n]
    ensures n < |a| && n < |b| ==> a[n] != b[n]
  {
    if a == [] || b == [] || a[0] != b[0] then 0
    else
      var n := CommonPrefix(a[1..], b[1..]);
      assert a[..1 + n] == [a[0]] + a[1..][..n] && b[..1 + n] == [b[0]] + b[1..][..n];
      1 + n
  }

  lemma CommonPrefixUnique(a: Bytes, b: Bytes, n: nat)
    requires n <= |a| && n <= |b| && a[..n] == b[..n]
    requires n < |a| && n < |b| ==> a[n] != b[n]
    ensures CommonPrefix(a, b) == n
  {
    var m := CommonPrefix(a, b);
    if m < n { SameInPrefix(a, b, n, m); }
    if n < m { SameInPrefix(a, b, m, n); }
  }

  lemma SameInPrefix(a: Bytes, b: Bytes, n: nat, i: nat)
    requires n <= |a| && n <= |b| && a[..n] == b[..n] && i < n
    ensures a[i] == b[i]
  {
    assert a[i] == a[..n][i] && b[i] == b[..n][i];
  }

  /** `memcmp`: the sign of the first difference among the first `n` bytes. */
  function MemCmp(a: Bytes, b: Bytes, n: nat): int
    requires n <= |a| && n <= |b|
  {
    var i := CommonPrefix(a, b);
    if i >= n then 0 else (a[i] as int) - (b[i] as int)
  }

  /** `Slice::compare`. */
  function Compare(a: Bytes, b: Bytes): int {
    var minLen := if |a| < |b| then |a| else |b|;
    var r := MemCmp(a, b, minLen);
    if r == 0 then
      if |a| < |b| then -1 else if |a| > |b| then 1 else r
    else r
  }

  /** Lexicographic order: a proper prefix comes first, otherwise the first difference decides. */
  predicate Less(a: Bytes, b: Bytes) {
    var i := CommonPrefix(a, b);
    i < |b| && (i == |a| || a[i] < b[i])
  }

  lemma CompareIsLess(a: Bytes, b: Bytes)
    ensures Compare(a, b) < 0 <==> Less(a, b)
    ensures Compare(a, b) > 0 <==> Less(b, a)
    ensures Compare(a, b) == 0 <==> a == b
  {
    CommonPrefixUnique(b, a, CommonPrefix(a, b));
    if a == b { CommonPrefixUnique(a, b, |a|); }
  }

  lemma LessOrEqual(a: Bytes, b: Bytes)
    ensures !Less(a, b) <==> a == b || Less(b, a)
    ensures Less(a, b) ==> a != b && !Less(b, a)
  {
    CompareIsLess(a, b);
  }

  lemma LessAt(a: Bytes, b: Bytes, i: nat)
    requires i < |b| && i <= |a| && a[..i] == b[..i]
    requires i == |a| || a[i] < b[i]
    ensures Less(a, b)
  {
    CommonPrefixUnique(a, b, i);
  }

  lemma LessTransitive(a: Bytes, b: Bytes, c: Bytes)
    requires Less(a, b) && Less(b, c)
    ensures Less(a, c)
  {
    var i, j := CommonPrefix(a, b), CommonPrefix(b, c);
    var k := if i < j then i else j;
    assert a[..k] == a[..i][..k] && b[..k] == b[..i][..k];
    assert b[..k] == b[..j][..k] && c[..k] == c[..j][..k];
    if i < j { SameInPrefix(b, c, j, i); }
    if j < i { SameInPrefix(a, b, i, j); }
    LessAt(a, c, k);
  }

  // ---- FindShortestSeparator ----

  function Separator(start: Bytes, limit: Bytes): Bytes {
    var d := CommonPrefix(start, limit);
    if d < |start| && d < |limit| && start[d] < 0xff && start[d] + 1 < limit[d]
    then start[..d] + [start[d] + 1]
    else start
  }

  method FindShortestSeparator(start: ByteString, limit: Bytes)
    modifies start
    ensures start.data == Separator(old(start.data), limit)
  {
    hide CommonPrefix, Compare, Less;
    var minLength := if |start.data| < |limit| then |start.data| else |limit|;
    var diffIndex: nat := 0;
    while diffIndex < minLength && start.data[diffIndex] == limit[diffIndex]
      invariant start.data == old(start.data)
      invariant diffIndex <= minLength && start.data[..diffIndex] == limit[..diffIndex]
    {
      OneMoreShared(start.data, limit, diffIndex);
      diffIndex := diffIndex + 1;
    }
    CommonPrefixUnique(start.data, limit, diffIndex);
    if diffIndex >= minLength {
      // One string is a prefix of the other.
    } else {
      var diffByte := start.data[diffIndex];
      if diffByte < 0xff && diffByte + 1 < limit[diffIndex] {
        SeparatorBetween(start.data, limit);
        start.data := start.data[diffIndex := diffByte + 1][..diffIndex + 1];
        assert start.data == Separator(old(start.data), limit);
        CompareIsLess(start.data, limit);
        assert Compare(start.data, limit) < 0;
      }
    }
  }

  lemma OneMoreShared(a: Bytes, b: Bytes, i: nat)
    requires i < |a| && i < |b| && a[..i] == b[..i] && a[i] == b[i]
    ensures a[..i + 1] == b[..i + 1]
  {
    assert a[..i + 1] == a[..i] + [a[i]];
    assert b[..i + 1] == b[..i] + [b[i]];
  }

  /** Whatever the two strings are, a separator that differs from `start` lies strictly between them. */
  lemma SeparatorBetween(start: Bytes, limit: Bytes)
    ensures var r := Separator(start, limit);
      |r| <= |start| && (r != start ==> Less(start, r) && Less(r, limit) && Less(start, limit))
  {
    var d, r := CommonPrefix(start, limit), Separator(start, limit);
    if r != start {
      assert r[..d] == start[..d];
      LessAt(start, r, d);
      LessAt(r, limit, d);
      LessAt(start, limit, d);
    }
  }

  /** The contract: the result is in [start, limit) exactly when that interval is not empty. */
  lemma SeparatorContract(start: Bytes, limit: Bytes)
    ensures var r := Separator(start, limit);
      !Less(r, start) && Less(r, limit) <==> Less(start, limit)
  {
    SeparatorBetween(start, limit);
    LessOrEqual(start, Separator(start, limit));
    LessOrEqual(start, start);
  }

  /** A separator that differs from `start` is as short as any string of the interval. */
  lemma SeparatorShortest(start: Bytes, limit: Bytes, s: Bytes)
    requires Separator(start, limit) != start
    requires !Less(s, start) && Less(s, limit)
    ensures |Separator(start, limit)| <= |s|
  {
    var d := CommonPrefix(start, limit);
    if |s| <= d {
      var k := CommonPrefix(s, limit);
      assert start[..k] == start[..d][..k] && limit[..k] == limit[..d][..k];
      if k < |s| { SameInPrefix(start, limit, d, k); }
      LessAt(s, start, k);
    }
  }

  /** A changed separator is the first among the shortest strings that lie strictly between. */
  lemma SeparatorLeast(start: Bytes, limit: Bytes, s: Bytes)
    requires Separator(start, limit) != start
    requires Less(start, s) && Less(s, limit)
    ensures var r := Separator(start, limit); |r| <= |s| && (|s| == |r| ==> !Less(s, r))
  {
    LessOrEqual(s, start);
    SeparatorShortest(start, limit, s);
    var d, r := CommonPrefix(start, limit), Separator(start, limit);
    if |s| == d + 1 {
      SharesPrefix(start, s, limit, d);
      assert r[..d] == start[..d];
      hide CommonPrefix, Less;
      if s[d] <= start[d] { NotLessAt(start, s, d); } else { NotLessAt(s, r, d); }
    }
  }

  /** Strings that agree up to the last byte of the second. */
  lemma NotLessAt(a: Bytes, b: Bytes, d: nat)
    requires d < |a| && |b| == d + 1 && a[..d] == b[..d] && b[d] <= a[d]
    ensures !Less(a, b)
  {
    if a[d] == b[d] { OneMoreShared(a, b, d); }
    CommonPrefixUnique(a, b, if a[d] == b[d] then d + 1 else d);
  }

  /** What lies between two strings begins with what they share. */
  lemma SharesPrefix(a: Bytes, s: Bytes, b: Bytes, d: nat)
    requires Less(a, s) && Less(s, b) && d <= |a| && d <= |b| && d <= |s| && a[..d] == b[..d]
    ensures s[..d] == a[..d]
  {
    var k := CommonPrefix(a, s);
    if k < d {
      assert a[..k] == b[..k] by { assert a[..k] == a[..d][..k] && b[..k] == b[..d][..k]; }
      SameInPrefix(a, b, d, k);
      LessAt(b, s, k);
      LessOrEqual(s, b);
    } else {
      assert s[..d] == s[..k][..d] && a[..d] == a[..k][..d];
    }
  }

  predicate Between(low: Byte, c: Byte, high: Byte) {
    low < c < high
  }

  /** There is room for a byte where two strings differ. */
  predicate RoomAt(start: Bytes, limit: Bytes, d: nat) {
    && d < |start| && d < |limit| && start[..d] == limit[..d]
    && exists c: Byte :: Between(start[d], c, limit[d])
  }

  /** The separator changes exactly if the strings differ where both still have a byte, and there is a byte between
      those two; it then ends there, in the next byte after that of `start`. */
  lemma SeparatorChangesIff(start: Bytes, limit: Bytes)
    ensures Separator(start, limit) != start <==> exists d: nat :: RoomAt(start, limit, d)
    ensures forall d: nat | RoomAt(start, limit, d) :: Separator(start, limit) == start[..d] + [start[d] + 1]
  {
    var r := CommonPrefix(start, limit);
    forall d: nat | RoomAt(start, limit, d)
      ensures Separator(start, limit) == start[..d] + [start[d] + 1] != start
    {
      CommonPrefixUnique(start, limit, d);
      assert (start[..d] + [start[d] + 1])[d] == start[d] + 1;
    }
    if Separator(start, limit) != start {
      var c: Byte := start[r] + 1;
      assert Between(start[r], c, limit[r]);
      assert RoomAt(start, limit, r);
    }
  }

  /** Between "helloworld" and "hellozzz", for example, it is "hellox". */
  lemma SeparatorExample()
    ensures var hello: Bytes := [104, 101, 108, 108, 111];
      Separator(hello + [119, 111, 114, 108, 100], hello + [122, 122, 122]) == hello + [120]
  {
    var hello: Bytes := [104, 101, 108, 108, 111];
    var start, limit := hello + [119, 111, 114, 108, 100], hello + [122, 122, 122];
    assert start[..5] == hello == limit[..5];
    CommonPrefixUnique(start, limit, 5);
  }

  /** The byte-wise comparator is what include/leveldb/comparator.h asks for. */
  lemma BytewiseOrder()
    ensures TotalOrder(Compare) && Separates(Compare, Separator)
  {
    forall a: Bytes, b: Bytes
      ensures Before(Compare, a, b) <==> Less(a, b)
      ensures Before(Compare, a, b) <==> Compare(b, a) > 0
      ensures Compare(a, b) == 0 ==> a == b
      ensures if Before(Compare, a, b) then !Before(Compare, Separator(a, b), a) && Before(Compare, Separator(a, b), b)
              else Separator(a, b) == a
    {
      CompareIsLess(a, b);
      CompareIsLess(b, a);
      CompareIsLess(Separator(a, b), a);
      CompareIsLess(Separator(a, b), b);
      SeparatorContract(a, b);
      SeparatorBetween(a, b);
    }
    forall a: Bytes, b: Bytes, c: Bytes | Before(Compare, a, b) && !Before(Compare, c, b)
      ensures Before(Compare, a, c)
    {
      LessOrEqual(c, b);
      if Less(b, c) { LessTransitive(a, b, c); }
    }
  }

  // ---- FindShortSuccessor ----

  /** The length of the run of 0xff at the front of `key`. */
  function RunOfFF(key: Bytes): (n: nat)
    ensures n <= |key| && (forall i | 0 <= i < n :: key[i] == 0xff)
    ensures n < |key| ==> key[n] != 0xff
  {
    if key == [] || key[0] != 0xff then 0
    else
      var n := RunOfFF(key[1..]);
      assert forall i | 1 <= i < 1 + n :: key[i] == key[1..][i - 1];
      1 + n
  }

  lemma RunOfFFUnique(key: Bytes, n: nat)
    requires n <= |key| && (forall i | 0 <= i < n :: key[i] == 0xff)
    requires n < |key| ==> key[n] != 0xff
    ensures RunOfFF(key) == n
  {
    var m := RunOfFF(key);
  }

  function Successor(key: Bytes): Bytes {
    var i := RunOfFF(key);
    if i == |key| then key else key[..i] + [key[i] + 1]
  }

  method FindShortSuccessor(key: ByteString)
    modifies key
    ensures key.data == Successor(old(key.data))
  {
    var n := |key.data|;
    for i := 0 to n
      invariant key.data == old(key.data) && forall k | 0 <= k < i :: key.data[k] == 0xff
    {
      var byte := key.data[i];
      if byte != 0xff {
        RunOfFFUnique(key.data, i);
        key.data := key.data[i := byte + 1][..i + 1];
        return;
      }
    }
    RunOfFFUnique(key.data, n);
  }

  /** The contract, and more: the successor is not before `key`; when it is not `key` itself, no string
      after `key` is shorter, and among those as short it is the first. Only a run of 0xff is kept. */
  lemma SuccessorIsShortest(key: Bytes, s: Bytes)
    ensures var r := Successor(key);
      && (r == key <==> RunOfFF(key) == |key|)
      && (r != key ==> Less(key, r))
      && (r != key && Less(key, s) ==> |r| <= |s| && (|s| == |r| ==> !Less(s, r)))
  {
    hide CommonPrefix, RunOfFF;
    var i, r := RunOfFF(key), Successor(key);
    if i < |key| {
      assert r[..i] == key[..i];
      LessAt(key, r, i);
      if Less(key, s) {
        var k := CommonPrefix(key, s);
        assert k >= i;
        assert key[..i] == key[..k][..i] && s[..i] == s[..k][..i];
        if |s| == i + 1 {
          CommonPrefixAtLeast(s, r, i);
        }
      }
    }
  }

  lemma CommonPrefixAtLeast(a: Bytes, b: Bytes, i: nat)
    requires i <= |a| && i <= |b| && a[..i] == b[..i]
    ensures i <= CommonPrefix(a, b)
  {
    var n := CommonPrefix(a, b);
    if n < i { SameInPrefix(a, b, i, n); }
  }
}
