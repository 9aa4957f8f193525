/** db/dbformat: internal keys, that is user keys followed by a packed sequence number and type. */
module DbFormat {
  import opened Bytes
  import opened Coding
  import opened BytewiseComparator
  import opened KeyOrder

  const MAX_SEQUENCE: nat := 0xff_ffff_ffff_ffff
  const TYPE_DELETION: nat := 0
  const TYPE_VALUE: nat := 1
  const TYPE_FOR_SEEK: nat := TYPE_VALUE

  /** What `ExtractUserKey` asserts. */
  type InternalKey = k: Bytes | |k| >= 8 witness seq(8, _ => 0)

  function UserKey(k: InternalKey): Bytes {
    k[..|k| - 8]
  }

  function Tag(k: InternalKey): nat {
    FixedValue(k[|k| - 8..])
  }

  function Sequence(k: InternalKey): nat {
    Tag(k) / 256
  }

  function Type(k: InternalKey): nat {
    Tag(k) % 256
  }

  function PackSequenceAndType(s: nat, t: nat): nat
    requires s <= MAX_SEQUENCE && t <= TYPE_FOR_SEEK
  {
    s * 256 + t
  }

  function MakeKey(user: Bytes, s: nat, t: nat): InternalKey
    requires s <= MAX_SEQUENCE && t <= TYPE_FOR_SEEK
  {
    user + Fixed64(PackSequenceAndType(s, t))
  }

  lemma MadeKeyParts(user: Bytes, s: nat, t: nat)
    requires s <= MAX_SEQUENCE && t <= TYPE_FOR_SEEK
    ensures var k := MakeKey(user, s, t);
      UserKey(k) == user && Tag(k) == PackSequenceAndType(s, t) && Sequence(k) == s && Type(k) == t
  {
    var k := MakeKey(user, s, t);
    assert k[|k| - 8..] == Fixed64(PackSequenceAndType(s, t));
    Fixed64RoundTrip(PackSequenceAndType(s, t));
  }

  /** The bytes of a packed key: the user key, then the type, 0 for a deletion and 1 for a value, then the 56 bits of
      the sequence number, lowest first. */
  lemma PackedBytes(user: Bytes, s: nat, t: nat)
    requires s <= 0xff_ffff_ffff_ffff && t <= 1
    ensures s <= MAX_SEQUENCE && t <= TYPE_FOR_SEEK && MakeKey(user, s, t) == user + [t] + Fixed(s, 7)
  {
    TagBytes(s, t);
    hide Fixed64, Fixed;
    assert user + ([t] + Fixed(s, 7)) == user + [t] + Fixed(s, 7);
  }

  lemma TagBytes(s: nat, t: nat)
    requires s <= 0xff_ffff_ffff_ffff && t <= 1
    ensures s <= MAX_SEQUENCE && t <= TYPE_FOR_SEEK && Fixed64(PackSequenceAndType(s, t)) == [t] + Fixed(s, 7)
  {
    hide Fixed;
    FixedSplits(s * 256 + t, 7);
    assert (s * 256 + t) % 256 == t && (s * 256 + t) / 256 == s;
  }

  lemma KeyFromParts(a: InternalKey, b: InternalKey)
    requires UserKey(a) == UserKey(b) && Tag(a) == Tag(b)
    ensures a == b
  {
    FixedValueInjective(a[|a| - 8..], b[|b| - 8..]);
    assert a == UserKey(a) + a[|a| - 8..] && b == UserKey(b) + b[|b| - 8..];
  }

  // ---- The order, over any order of user keys ----

  /** `InternalKeyComparator::Compare`. */
  function InternalCompare(cmp: Comparator<Bytes>, a: InternalKey, b: InternalKey): int {
    var r := cmp(UserKey(a), UserKey(b));
    if r == 0 then
      if Tag(a) > Tag(b) then -1 else if Tag(a) < Tag(b) then 1 else r
    else r
  }

  /** The comparator object around a user comparator. */
  function InternalOrder(cmp: Comparator<Bytes>): Comparator<InternalKey> {
    (a: InternalKey, b: InternalKey) => InternalCompare(cmp, a, b)
  }

  /** User keys ascending; for the same user key, newer entries first. */
  predicate InternalLess(cmp: Comparator<Bytes>, a: InternalKey, b: InternalKey) {
    Before(cmp, UserKey(a), UserKey(b)) || (UserKey(a) == UserKey(b) && Tag(a) > Tag(b))
  }

  lemma InternalCompareIsLess(cmp: Comparator<Bytes>, a: InternalKey, b: InternalKey)
    requires TotalOrder(cmp)
    ensures InternalCompare(cmp, a, b) < 0 <==> InternalLess(cmp, a, b)
    ensures InternalCompare(cmp, a, b) > 0 <==> InternalLess(cmp, b, a)
    ensures InternalCompare(cmp, a, b) == 0 <==> a == b
    ensures Before(InternalOrder(cmp), a, b) <==> InternalLess(cmp, a, b)
  {
    Trichotomy(cmp, UserKey(a), UserKey(b));
    Trichotomy(cmp, UserKey(b), UserKey(a));
    if InternalCompare(cmp, a, b) == 0 { KeyFromParts(a, b); }
  }

  lemma InternalLessTransitive(cmp: Comparator<Bytes>, a: InternalKey, b: InternalKey, c: InternalKey)
    requires TotalOrder(cmp) && InternalLess(cmp, a, b) && InternalLess(cmp, b, c)
    ensures InternalLess(cmp, a, c)
  {
    if Before(cmp, UserKey(a), UserKey(b)) && Before(cmp, UserKey(b), UserKey(c)) {
      BeforeTransitive(cmp, UserKey(a), UserKey(b), UserKey(c));
    }
  }

  lemma InternalLessTotal(cmp: Comparator<Bytes>, a: InternalKey, b: InternalKey)
    requires TotalOrder(cmp)
    ensures !InternalLess(cmp, a, b) <==> a == b || InternalLess(cmp, b, a)
    ensures InternalLess(cmp, a, b) ==> a != b && !InternalLess(cmp, b, a)
  {
    InternalCompareIsLess(cmp, a, b);
  }

  /** The comparator is a total order on internal keys, and so fit for a skip list. */
  lemma InternalOrderIsTotal(cmp: Comparator<Bytes>)
    requires TotalOrder(cmp)
    ensures TotalOrder(InternalOrder(cmp))
  {
    forall a: InternalKey, b: InternalKey
      ensures Before(InternalOrder(cmp), a, b) <==> InternalOrder(cmp)(b, a) > 0
      ensures InternalOrder(cmp)(a, b) == 0 ==> a == b
    {
      InternalCompareIsLess(cmp, a, b);
      InternalCompareIsLess(cmp, b, a);
    }
    forall a: InternalKey, b: InternalKey, c: InternalKey
      | Before(InternalOrder(cmp), a, b) && !Before(InternalOrder(cmp), c, b)
      ensures Before(InternalOrder(cmp), a, c)
    {
      InternalOrderStep(cmp, a, b, c);
    }
  }

  lemma InternalOrderStep(cmp: Comparator<Bytes>, a: InternalKey, b: InternalKey, c: InternalKey)
    requires TotalOrder(cmp) && Before(InternalOrder(cmp), a, b) && !Before(InternalOrder(cmp), c, b)
    ensures Before(InternalOrder(cmp), a, c)
  {
    InternalCompareIsLess(cmp, a, b);
    InternalCompareIsLess(cmp, c, b);
    InternalCompareIsLess(cmp, a, c);
    InternalLessTotal(cmp, c, b);
    hide *;
    if InternalLess(cmp, b, c) { InternalLessTransitive(cmp, a, b, c); }
  }

  /** On packed keys: user key ascending, then sequence number descending, then type descending. */
  lemma PackedOrder(cmp: Comparator<Bytes>, u: Bytes, s: nat, t: nat, v: Bytes, s': nat, t': nat)
    requires s <= MAX_SEQUENCE && t <= TYPE_FOR_SEEK && s' <= MAX_SEQUENCE && t' <= TYPE_FOR_SEEK
    ensures InternalLess(cmp, MakeKey(u, s, t), MakeKey(v, s', t'))
       <==> Before(cmp, u, v) || (u == v && (s > s' || (s == s' && t > t')))
  {
    MadeKeyParts(u, s, t);
    MadeKeyParts(v, s', t');
  }

  // ---- FindShortestSeparator, over any separator of user keys ----

  function InternalSeparator(cmp: Comparator<Bytes>, separate: Separator<Bytes>, start: InternalKey, limit: InternalKey):
    InternalKey
  {
    var user := UserKey(start);
    var tmp := separate(user, UserKey(limit));
    if |tmp| < |user| && cmp(user, tmp) < 0 then MakeKey(tmp, MAX_SEQUENCE, TYPE_FOR_SEEK) else start
  }

  method FindShortestInternalSeparator(cmp: Comparator<Bytes>, separate: Separator<Bytes>, start: ByteString,
                                       limit: InternalKey)
    requires TotalOrder(cmp) && Separates(cmp, separate)
    requires |start.data| >= 8
    modifies start
    ensures start.data == InternalSeparator(cmp, separate, old(start.data), limit)
  {
    var userStart := UserKey(start.data);
    var userLimit := UserKey(limit);
    var tmp := new ByteString(userStart);
    tmp.data := separate(tmp.data, userLimit);
    if |tmp.data| < |userStart| && cmp(userStart, tmp.data) < 0 {
      InternalSeparatorBetween(cmp, separate, start.data, limit);
      tmp.data := tmp.data + Fixed64(PackSequenceAndType(MAX_SEQUENCE, TYPE_FOR_SEEK));
      InternalCompareIsLess(cmp, start.data, tmp.data);
      InternalCompareIsLess(cmp, tmp.data, limit);
      assert InternalCompare(cmp, start.data, tmp.data) < 0;
      assert InternalCompare(cmp, tmp.data, limit) < 0;
      start.data := tmp.data;
    }
  }

  /** Whatever the two keys are, a separator that differs from `start` is strictly shorter, lies
      strictly between them, and is the first possible version of its user key. */
  lemma InternalSeparatorBetween(cmp: Comparator<Bytes>, separate: Separator<Bytes>, start: InternalKey, limit: InternalKey)
    requires TotalOrder(cmp) && Separates(cmp, separate)
    ensures var r := InternalSeparator(cmp, separate, start, limit);
      r != start ==>
        && |r| < |start| && InternalLess(cmp, start, r) && InternalLess(cmp, r, limit)
        && forall s, t | 0 <= s <= MAX_SEQUENCE && 0 <= t <= TYPE_FOR_SEEK ::
             !InternalLess(cmp, MakeKey(UserKey(r), s, t), r)
  {
    var user, tmp := UserKey(start), separate(UserKey(start), UserKey(limit));
    Trichotomy(cmp, user, user);
    MadeKeyParts(tmp, MAX_SEQUENCE, TYPE_FOR_SEEK);
    var r := InternalSeparator(cmp, separate, start, limit);
    forall s, t | r != start && 0 <= s <= MAX_SEQUENCE && 0 <= t <= TYPE_FOR_SEEK
      ensures !InternalLess(cmp, MakeKey(UserKey(r), s, t), r)
    {
      PackedOrder(cmp, tmp, s, t, tmp, MAX_SEQUENCE, TYPE_FOR_SEEK);
      Trichotomy(cmp, tmp, tmp);
    }
  }

  /** A key changes exactly if the user separator is shorter than the user key, and after it. It then is that
      separator with the type of a value and the greatest sequence number, which are eight literal bytes. */
  lemma InternalSeparatorChangesIff(cmp: Comparator<Bytes>, separate: Separator<Bytes>, start: InternalKey,
                                    limit: InternalKey)
    ensures var r, user := InternalSeparator(cmp, separate, start, limit), UserKey(start);
      var tmp := separate(user, UserKey(limit));
      && (r != start <==> |tmp| < |user| && Before(cmp, user, tmp))
      && (r != start ==> r == tmp + [1, 0xff, 0xff, 0xff, 0xff, 0xff, 0xff, 0xff])
  {
    var tmp := separate(UserKey(start), UserKey(limit));
    hide Fixed;
    PackedBytes(tmp, 0xff_ffff_ffff_ffff, 1);
    HighestSequence();
  }

  lemma HighestSequence()
    ensures MAX_SEQUENCE == 0xff_ffff_ffff_ffff && TYPE_FOR_SEEK == 1
    ensures Fixed(MAX_SEQUENCE, 7) == [0xff, 0xff, 0xff, 0xff, 0xff, 0xff, 0xff]
  {
    FixedSplits(0xff_ffff_ffff_ffff, 6);
    FixedSplits(0xffff_ffff_ffff, 5);
    FixedSplits(0xff_ffff_ffff, 4);
    FixedSplits(0xffff_ffff, 3);
    FixedSplits(0xff_ffff, 2);
    FixedSplits(0xffff, 1);
    FixedSplits(0xff, 0);
    hide Fixed;
  }

  /** The contract in internal order: the result is in [start, limit) exactly when there is room. */
  lemma InternalSeparatorContract(cmp: Comparator<Bytes>, separate: Separator<Bytes>, start: InternalKey,
                                  limit: InternalKey)
    requires TotalOrder(cmp) && Separates(cmp, separate)
    ensures var r := InternalSeparator(cmp, separate, start, limit);
      && (!InternalLess(cmp, r, start) && InternalLess(cmp, r, limit) <==> InternalLess(cmp, start, limit))
      && (!InternalLess(cmp, start, limit) ==> r == start)
  {
    hide InternalLess, InternalSeparator, TotalOrder, Separates;
    var r := InternalSeparator(cmp, separate, start, limit);
    InternalSeparatorBetween(cmp, separate, start, limit);
    InternalLessTotal(cmp, start, r);
    InternalLessTotal(cmp, start, start);
    if r != start { InternalLessTransitive(cmp, start, r, limit); }
  }

  // ---- On all byte strings ----

  /** The internal comparator asserts eight bytes; here shorter strings come first, byte-wise. So extended it
      can be put where a comparator of byte strings is wanted. */
  function ExtendedCompare(cmp: Comparator<Bytes>, a: Bytes, b: Bytes): int {
    if |a| >= 8 && |b| >= 8 then InternalCompare(cmp, a, b)
    else if |a| >= 8 then 1
    else if |b| >= 8 then -1
    else Compare(a, b)
  }

  function ExtendedOrder(cmp: Comparator<Bytes>): Comparator<Bytes> {
    (a: Bytes, b: Bytes) => ExtendedCompare(cmp, a, b)
  }

  function ExtendedSeparator(cmp: Comparator<Bytes>, separate: Separator<Bytes>): Separator<Bytes> {
    (a: Bytes, b: Bytes) => if |a| >= 8 && |b| >= 8 then InternalSeparator(cmp, separate, a, b) else a
  }

  lemma ExtendedLess(cmp: Comparator<Bytes>, a: Bytes, b: Bytes)
    requires TotalOrder(cmp)
    ensures Before(ExtendedOrder(cmp), a, b)
       <==> if |a| >= 8 && |b| >= 8 then InternalLess(cmp, a, b) else |b| >= 8 > |a| || (|a| < 8 && |b| < 8 && Less(a, b))
    ensures ExtendedCompare(cmp, a, b) > 0 <==> Before(ExtendedOrder(cmp), b, a)
    ensures ExtendedCompare(cmp, a, b) == 0 <==> a == b
  {
    CompareIsLess(a, b);
    CompareIsLess(b, a);
    if |a| >= 8 && |b| >= 8 {
      InternalCompareIsLess(cmp, a, b);
      InternalCompareIsLess(cmp, b, a);
    }
  }

  lemma ExtendedStep(cmp: Comparator<Bytes>, a: Bytes, b: Bytes, c: Bytes)
    requires TotalOrder(cmp) && Before(ExtendedOrder(cmp), a, b) && !Before(ExtendedOrder(cmp), c, b)
    ensures Before(ExtendedOrder(cmp), a, c)
  {
    ExtendedLess(cmp, a, b);
    ExtendedLess(cmp, c, b);
    ExtendedLess(cmp, a, c);
    hide *;
    if |a| >= 8 && |b| >= 8 && |c| >= 8 {
      InternalLessTotal(cmp, c, b);
      if InternalLess(cmp, b, c) { InternalLessTransitive(cmp, a, b, c); }
    } else if |a| < 8 && |b| < 8 && |c| < 8 {
      LessOrEqual(c, b);
      if Less(b, c) { LessTransitive(a, b, c); }
    }
  }

  lemma ExtendedSeparates(cmp: Comparator<Bytes>, separate: Separator<Bytes>, a: Bytes, b: Bytes)
    requires TotalOrder(cmp) && Separates(cmp, separate)
    ensures var r := ExtendedSeparator(cmp, separate)(a, b);
      if Before(ExtendedOrder(cmp), a, b) then !Before(ExtendedOrder(cmp), r, a) && Before(ExtendedOrder(cmp), r, b)
      else r == a
  {
    var r := ExtendedSeparator(cmp, separate)(a, b);
    if |a| >= 8 && |b| >= 8 {
      InternalSeparatorContract(cmp, separate, a, b);
    }
    hide TotalOrder, Separates, InternalSeparator, ExtendedCompare, InternalLess, Less;
    ExtendedLess(cmp, a, b);
    ExtendedLess(cmp, r, a);
    ExtendedLess(cmp, r, b);
    ExtendedLess(cmp, a, a);
  }

  /** It is a total order, with a separator that meets the contract. */
  lemma ExtendedOrderIsTotal(cmp: Comparator<Bytes>, separate: Separator<Bytes>)
    requires TotalOrder(cmp) && Separates(cmp, separate)
    ensures TotalOrder(ExtendedOrder(cmp)) && Separates(ExtendedOrder(cmp), ExtendedSeparator(cmp, separate))
  {
    forall a: Bytes, b: Bytes
      ensures Before(ExtendedOrder(cmp), a, b) <==> ExtendedOrder(cmp)(b, a) > 0
      ensures ExtendedOrder(cmp)(a, b) == 0 ==> a == b
    {
      ExtendedLess(cmp, a, b);
      ExtendedLess(cmp, b, a);
    }
    forall a: Bytes, b: Bytes, c: Bytes | Before(ExtendedOrder(cmp), a, b) && !Before(ExtendedOrder(cmp), c, b)
      ensures Before(ExtendedOrder(cmp), a, c)
    {
      ExtendedStep(cmp, a, b, c);
    }
    forall a: Bytes, b: Bytes
      ensures var r := ExtendedSeparator(cmp, separate)(a, b);
        if Before(ExtendedOrder(cmp), a, b) then !Before(ExtendedOrder(cmp), r, a) && Before(ExtendedOrder(cmp), r, b)
        else r == a
    {
      ExtendedSeparates(cmp, separate, a, b);
    }
  }

  // ---- FindShortSuccessor ----

  /** The internal comparator shortens the raw key, tag and all. */
  method FindShortInternalSuccessor(key: ByteString)
    modifies key
    ensures key.data == Successor(old(key.data))
  {
    FindShortSuccessor(key);
  }

  /** What a successor should be over byte-wise user keys: still an internal key, and not before the one it
      replaces. */
  predicate SuccessorContract(key: InternalKey) {
    var r := Successor(key);
    |r| >= 8 && !InternalLess(Compare, r, key)
  }

  /** The raw successor meets that contract only where it changes nothing: on keys all of 0xff. */
  lemma SuccessorContractIff(key: InternalKey)
    ensures SuccessorContract(key) <==> RunOfFF(key) == |key|
  {
    hide RunOfFF, Compare, Tag, TotalOrder, Less;
    var i, r := RunOfFF(key), Successor(key);
    if i == |key| {
      BytewiseOrder();
      InternalLessTotal(Compare, key, key);
    } else if |r| == |key| {
      HigherTag(key);
      assert UserKey(r) == UserKey(key);
    } else if |r| >= 8 {
      ShorterUserKey(key, r);
      CompareIsLess(UserKey(r), UserKey(key));
    }
  }

  /** Keys all of 0xff have no valid type: on keys that the database makes the contract never holds. */
  lemma SuccessorContractNeverMet(key: InternalKey)
    requires WellTyped(key)
    ensures !SuccessorContract(key)
  {
    SuccessorContractIff(key);
    var tag := key[|key| - 8..];
    assert FixedValue(tag) == tag[0] + 256 * FixedValue(tag[1..]);
    assert Type(key) == key[|key| - 8];
  }

  /** Without the end of the key, a shorter prefix of the user key is left. */
  lemma ShorterUserKey(key: InternalKey, r: InternalKey)
    requires |r| < |key| && r[..|r| - 1] == key[..|r| - 1]
    ensures Less(UserKey(r), UserKey(key))
  {
    var n := |r| - 8;
    assert UserKey(r) == r[..|r| - 1][..n] && UserKey(key)[..n] == key[..|r| - 1][..n];
    LessAt(UserKey(r), UserKey(key), n);
  }

  /** Raising the last byte raises the tag, whose highest byte it is. */
  lemma HigherTag(key: InternalKey)
    requires RunOfFF(key) == |key| - 1
    ensures Tag(Successor(key)) > Tag(key)
  {
    hide *;
    SuccessorOfLast(key);
    TagsOf(key, Successor(key));
    LastByteOfTag(key, Successor(key));
  }

  lemma LastByteOfTag(a: Bytes, b: Bytes)
    requires |a| == |b| >= 8 && a[..|a| - 1] == b[..|a| - 1] && a[|a| - 1] < b[|a| - 1]
    ensures FixedValue(a[|a| - 8..]) < FixedValue(b[|a| - 8..])
  {
    hide *;
    var n := |a| - 8;
    assert a[n..][..7] == a[..|a| - 1][n..] && b[n..][..7] == b[..|a| - 1][n..];
    LastByteCounts(a[n..], b[n..]);
  }

  lemma SuccessorOfLast(key: InternalKey)
    requires RunOfFF(key) == |key| - 1
    ensures var r, n := Successor(key), |key| - 1;
      |r| == |key| && r[..n] == key[..n] && key[n] < r[n]
  {
    hide RunOfFF;
  }

  lemma TagsOf(a: InternalKey, b: InternalKey)
    ensures Tag(a) == FixedValue(a[|a| - 8..]) && Tag(b) == FixedValue(b[|b| - 8..])
  {
  }

  lemma {:induction false} LastByteCounts(a: Bytes, b: Bytes)
    requires |a| == |b| > 0 && a[..|a| - 1] == b[..|a| - 1] && a[|a| - 1] < b[|a| - 1]
    ensures FixedValue(a) < FixedValue(b)
  {
    if |a| > 1 {
      assert a[0] == a[..|a| - 1][0] && b[0] == b[..|a| - 1][0];
      assert a[1..][..|a| - 2] == a[..|a| - 1][1..] && b[1..][..|a| - 2] == b[..|a| - 1][1..];
      LastByteCounts(a[1..], b[1..]);
    }
  }

  /** A key for which the contract fails: an empty user key at sequence number 0. */
  lemma SuccessorContractFails()
    ensures !SuccessorContract(MakeKey([], 0, 0))
    ensures |Successor(MakeKey([], 0, 0))| == 1
  {
    var key := MakeKey([], 0, 0);
    assert key[0] == 0;
    SuccessorContractIff(key);
  }

  // ---- LookupKey ----

  class LookupKey {
    const buffer: Bytes // from start_ to end_
    const kstart: nat

    /** `size_t` lengths above 32 bits are truncated by `EncodeVarint32`. */
    constructor (userKey: Bytes, s: nat)
      requires s <= MAX_SEQUENCE
      ensures Represents(userKey, s)
      ensures |buffer| <= |userKey| + 8 + 5 // the space that was reserved
    {
      var length := EncodeVarint32(ToUint32(|userKey| + 8));
      VarintSizes(ToUint32(|userKey| + 8));
      kstart := |length|;
      buffer := length + userKey + Fixed64(PackSequenceAndType(s, TYPE_FOR_SEEK));
      assert length + userKey + Fixed64(PackSequenceAndType(s, TYPE_FOR_SEEK))
          == length + MakeKey(userKey, s, TYPE_FOR_SEEK);
    }

    predicate Represents(userKey: Bytes, s: nat) {
      && s <= MAX_SEQUENCE
      && buffer == Varint(ToUint32(|userKey| + 8)) + MakeKey(userKey, s, TYPE_FOR_SEEK)
      && InternalPart() == MakeKey(userKey, s, TYPE_FOR_SEEK)
      && UserPart() == userKey
    }

    function InternalPart(): Bytes {
      if kstart <= |buffer| then buffer[kstart..] else []
    }

    function UserPart(): Bytes {
      if kstart + 8 <= |buffer| then buffer[kstart..|buffer| - 8] else []
    }
  }

  // ---- Snapshot reads ----

  predicate WellTyped(k: InternalKey) {
    Sequence(k) <= MAX_SEQUENCE && Type(k) <= TYPE_FOR_SEEK
  }

  /** `k` is a version of `user` that a read at snapshot `s` may see. */
  predicate VisibleVersion(k: InternalKey, user: Bytes, s: nat) {
    UserKey(k) == user && Sequence(k) <= s
  }

  /** The keys that a seek to (user, s) skips are those of smaller user keys and the versions newer
      than the snapshot. */
  lemma BeforeTarget(cmp: Comparator<Bytes>, k: InternalKey, user: Bytes, s: nat)
    requires s <= MAX_SEQUENCE && WellTyped(k)
    ensures InternalLess(cmp, k, MakeKey(user, s, TYPE_FOR_SEEK))
       <==> Before(cmp, UserKey(k), user) || (UserKey(k) == user && Sequence(k) > s)
  {
    MadeKeyParts(user, s, TYPE_FOR_SEEK);
  }

  /** Seeking with a lookup key: in any sorted list the seek stops at the newest version that the
      snapshot may see; if there is none, it stops at a greater user key or at the end. */
  lemma SeekFindsNewestVisible(cmp: Comparator<Bytes>, keys: seq<InternalKey>, user: Bytes, s: nat)
    requires TotalOrder(cmp) && Sorted(InternalOrder(cmp), keys) && s <= MAX_SEQUENCE
    requires forall j | 0 <= j < |keys| :: WellTyped(keys[j])
    ensures var n := LowerBound(InternalOrder(cmp), keys, MakeKey(user, s, TYPE_FOR_SEEK));
      if exists k | k in keys :: VisibleVersion(k, user, s)
      then n < |keys| && VisibleVersion(keys[n], user, s)
           && forall k | k in keys && VisibleVersion(k, user, s) :: Tag(k) <= Tag(keys[n])
      else n == |keys| || Before(cmp, user, UserKey(keys[n]))
  {
    var target := MakeKey(user, s, TYPE_FOR_SEEK);
    var n := LowerBound(InternalOrder(cmp), keys, target);
    forall i | 0 <= i < |keys| && VisibleVersion(keys[i], user, s)
      ensures n <= i && VisibleVersion(keys[n], user, s) && Tag(keys[i]) <= Tag(keys[n])
    {
      VersionAtSeek(cmp, keys, user, s, i);
    }
    if n < |keys| {
      AtOrAfterTarget(cmp, keys[n], user, s);
    }
  }

  lemma AtOrAfterTarget(cmp: Comparator<Bytes>, k: InternalKey, user: Bytes, s: nat)
    requires TotalOrder(cmp) && s <= MAX_SEQUENCE && WellTyped(k)
    requires !Before(InternalOrder(cmp), k, MakeKey(user, s, TYPE_FOR_SEEK))
    ensures VisibleVersion(k, user, s) || Before(cmp, user, UserKey(k))
  {
    InternalCompareIsLess(cmp, k, MakeKey(user, s, TYPE_FOR_SEEK));
    BeforeTarget(cmp, k, user, s);
    Trichotomy(cmp, UserKey(k), user);
  }

  lemma VersionAtSeek(cmp: Comparator<Bytes>, keys: seq<InternalKey>, user: Bytes, s: nat, i: nat)
    requires TotalOrder(cmp) && Sorted(InternalOrder(cmp), keys) && s <= MAX_SEQUENCE
    requires forall j | 0 <= j < |keys| :: WellTyped(keys[j])
    requires i < |keys| && VisibleVersion(keys[i], user, s)
    ensures var n := LowerBound(InternalOrder(cmp), keys, MakeKey(user, s, TYPE_FOR_SEEK));
      n <= i && VisibleVersion(keys[n], user, s) && Tag(keys[i]) <= Tag(keys[n])
  {
    var target := MakeKey(user, s, TYPE_FOR_SEEK);
    var n := LowerBound(InternalOrder(cmp), keys, target);
    VisibleNotBefore(cmp, keys[i], user, s);
    assert n <= i;
    assert n == i || !Before(InternalOrder(cmp), keys[i], keys[n]);
    hide *;
    AtOrAfterTarget(cmp, keys[n], user, s);
    SameUserKey(cmp, keys[n], keys[i], user, s);
  }

  lemma VisibleNotBefore(cmp: Comparator<Bytes>, k: InternalKey, user: Bytes, s: nat)
    requires TotalOrder(cmp) && s <= MAX_SEQUENCE && WellTyped(k) && VisibleVersion(k, user, s)
    ensures !Before(InternalOrder(cmp), k, MakeKey(user, s, TYPE_FOR_SEEK))
  {
    InternalCompareIsLess(cmp, k, MakeKey(user, s, TYPE_FOR_SEEK));
    BeforeTarget(cmp, k, user, s);
    Trichotomy(cmp, user, user);
  }

  /** What is not after a visible version, and not before the target, is a version at least as new. */
  lemma SameUserKey(cmp: Comparator<Bytes>, first: InternalKey, k: InternalKey, user: Bytes, s: nat)
    requires TotalOrder(cmp) && VisibleVersion(k, user, s)
    requires VisibleVersion(first, user, s) || Before(cmp, user, UserKey(first))
    requires first == k || !Before(InternalOrder(cmp), k, first)
    ensures VisibleVersion(first, user, s) && Tag(k) <= Tag(first)
  {
    InternalCompareIsLess(cmp, k, first);
    Trichotomy(cmp, user, UserKey(first));
  }
}
