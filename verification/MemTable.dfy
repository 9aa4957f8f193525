/** db/memtable: versioned entries in a skip list, and reads at a snapshot. */
module MemTable {
  import opened Bytes
  import opened Coding
  import opened DbFormat
  import opened KeyOrder
  import opened SkipList

  // ---- Entries: length-prefixed internal key, then length-prefixed value ----

  function Prefixed(s: Bytes): Bytes {
    Varint(|s|) + s
  }

  /** The string behind the length at the front of `data`, if all of it is there. */
  function GetLengthPrefixed(data: Bytes): Option<Bytes> {
    match ParseVarint32(data)
    case None => None
    case Some(p) => if p.length + p.value <= |data| then Some(data[p.length..p.length + p.value]) else None
  }

  /** Where the string behind the length ends. */
  function PrefixedEnd(data: Bytes): (end: nat)
    requires GetLengthPrefixed(data).Some?
    ensures end <= |data|
  {
    ParseVarint32(data).value.length + ParseVarint32(data).value.value
  }

  lemma PrefixedRoundTrip(s: Bytes, rest: Bytes)
    requires |s| < TWO_32
    ensures GetLengthPrefixed(Prefixed(s) + rest) == Some(s)
    ensures (Prefixed(s) + rest)[PrefixedEnd(Prefixed(s) + rest)..] == rest
  {
    assert Prefixed(s) + rest == Varint(|s|) + (s + rest);
    Varint32RoundTrip(|s|, s + rest);
  }

  /** What `KeyComparator` and `Get` take for granted of the memory that a list key points to. */
  predicate IsEntry(e: Bytes) {
    GetLengthPrefixed(e).Some? && |GetLengthPrefixed(e).value| >= 8
  }

  type Entry = e: Bytes | IsEntry(e) witness [8, 0, 0, 0, 0, 0, 0, 0, 0]

  function KeyPart(e: Entry): InternalKey {
    GetLengthPrefixed(e).value
  }

  function ValuePart(e: Entry): Option<Bytes> {
    GetLengthPrefixed(e[PrefixedEnd(e)..])
  }

  /** `KeyComparator` around an internal comparator, around a user comparator. */
  function EntryOrder(cmp: Comparator<Bytes>): Comparator<Entry> {
    (a: Entry, b: Entry) => InternalCompare(cmp, KeyPart(a), KeyPart(b))
  }

  lemma EntryOrderIsPreorder(cmp: Comparator<Bytes>)
    requires TotalOrder(cmp)
    ensures TotalPreorder(EntryOrder(cmp))
  {
    forall a: Entry, b: Entry ensures Before(EntryOrder(cmp), a, b) <==> EntryOrder(cmp)(b, a) > 0 {
      InternalCompareIsLess(cmp, KeyPart(a), KeyPart(b));
      InternalCompareIsLess(cmp, KeyPart(b), KeyPart(a));
    }
    forall a: Entry, b: Entry, c: Entry | Before(EntryOrder(cmp), a, b) && !Before(EntryOrder(cmp), c, b)
      ensures Before(EntryOrder(cmp), a, c)
    {
      EntryBefore(cmp, a, b);
      EntryBefore(cmp, c, b);
      EntryBefore(cmp, a, c);
      InternalOrderStep(cmp, KeyPart(a), KeyPart(b), KeyPart(c));
    }
  }

  lemma EntryBefore(cmp: Comparator<Bytes>, a: Entry, b: Entry)
    requires TotalOrder(cmp)
    ensures Before(EntryOrder(cmp), a, b) <==> InternalLess(cmp, KeyPart(a), KeyPart(b))
    ensures Before(EntryOrder(cmp), a, b) <==> Before(InternalOrder(cmp), KeyPart(a), KeyPart(b))
  {
    InternalCompareIsLess(cmp, KeyPart(a), KeyPart(b));
  }

  // ---- Writes ----

  datatype Write = Write(sequence: nat, kind: nat, key: Bytes, value: Bytes) {
    /** Within the ranges of the types, and lengths that 32 bits can hold. */
    predicate Valid() {
      && sequence <= MAX_SEQUENCE && kind <= TYPE_FOR_SEEK
      && |key| + 8 < TWO_32 && |value| < TWO_32
    }

    function InternalKey(): InternalKey
      requires Valid()
    {
      MakeKey(key, sequence, kind)
    }

    function Encoded(): Bytes
      requires Valid()
    {
      Prefixed(InternalKey()) + Prefixed(value)
    }
  }

  predicate AllValid(log: seq<Write>) {
    forall i | 0 <= i < |log| :: log[i].Valid()
  }

  lemma EncodedIsEntry(w: Write)
    requires w.Valid()
    ensures IsEntry(w.Encoded())
    ensures KeyPart(w.Encoded()) == w.InternalKey() && ValuePart(w.Encoded()) == Some(w.value)
  {
    PrefixedRoundTrip(w.InternalKey(), Prefixed(w.value));
    PrefixedRoundTrip(w.value, []);
    assert Prefixed(w.value) + [] == Prefixed(w.value);
  }

  /** The bytes that `Add` writes, whatever it is given. */
  function BufferOf(w: Write): Bytes
    requires w.kind <= TYPE_FOR_SEEK
  {
    Varint(ToUint32(|w.key| + 8)) + w.key + Fixed64((w.sequence * 256 + w.kind) % TWO_64)
    + Varint(ToUint32(|w.value|)) + w.value
  }

  /** The space that `Add` reserves. */
  function Reserved(w: Write): nat {
    |Varint(|w.key| + 8)| + |w.key| + 8 + |Varint(|w.value|)| + |w.value|
  }

  /** What is asserted of a write: by `Add`, that the space is exact; by the comparator, eight bytes of key. */
  predicate Storable(w: Write) {
    w.kind <= TYPE_FOR_SEEK && |BufferOf(w)| == Reserved(w) && IsEntry(BufferOf(w))
  }

  const NO_ENTRY: Entry := [8, 0, 0, 0, 0, 0, 0, 0, 0]

  /** The entry of a storable write. */
  function EntryOf(w: Write): Entry {
    if Storable(w) then BufferOf(w) else NO_ENTRY
  }

  lemma BufferIsEncoded(w: Write)
    requires w.Valid()
    ensures BufferOf(w) == w.Encoded()
  {
    var tag := Fixed64(w.sequence * 256 + w.kind);
    BufferParts(w);
    EncodedParts(w);
    hide *;
    Regroup(Varint(|w.key| + 8), w.key, tag, Varint(|w.value|), w.value);
  }

  lemma BufferParts(w: Write)
    requires w.Valid()
    ensures w.kind <= TYPE_FOR_SEEK
    ensures BufferOf(w)
         == Varint(|w.key| + 8) + w.key + Fixed64(w.sequence * 256 + w.kind) + Varint(|w.value|) + w.value
  {
    hide Varint, Fixed64;
  }

  lemma EncodedParts(w: Write)
    requires w.Valid()
    ensures w.Encoded()
         == (Varint(|w.key| + 8) + (w.key + Fixed64(w.sequence * 256 + w.kind))) + (Varint(|w.value|) + w.value)
  {
    hide Varint, Fixed64;
  }

  lemma Regroup(a: Bytes, b: Bytes, c: Bytes, d: Bytes, e: Bytes)
    ensures a + b + c + d + e == (a + (b + c)) + (d + e)
  {
  }

  lemma ValidIsStorable(w: Write)
    requires w.Valid()
    ensures Storable(w) && BufferOf(w) == EntryOf(w) == w.Encoded()
    ensures KeyPart(EntryOf(w)) == w.InternalKey() && ValuePart(EntryOf(w)) == Some(w.value)
  {
    EncodedIsEntry(w);
    BufferIsEncoded(w);
    BufferParts(w);
    hide BufferOf, Varint, Fixed64, IsEntry;
  }

  function Entries(log: seq<Write>): (entries: seq<Entry>)
    ensures |entries| == |log|
  {
    if log == [] then [] else Entries(log[..|log| - 1]) + [EntryOf(log[|log| - 1])]
  }

  // ---- Reads ----

  /** `Garbled` stands for a read outside an entry that did not keep its value. */
  datatype ReadResult = Found(value: Bytes) | Deleted | Missing | Garbled

  /** Of the writes to `user` that snapshot `s` may see, the newest: the greatest sequence number, then
      the greatest type, then the last write. */
  function Newest(log: seq<Write>, user: Bytes, s: nat): Option<Write> {
    if log == [] then None
    else
      var best, w := Newest(log[..|log| - 1], user, s), log[|log| - 1];
      if w.key == user && w.sequence <= s
         && (best.None? || (w.sequence, w.kind) == (best.value.sequence, best.value.kind) || Newer(w, best.value))
      then Some(w) else best
  }

  predicate Newer(a: Write, b: Write) {
    a.sequence > b.sequence || (a.sequence == b.sequence && a.kind > b.kind)
  }

  /** What `Newest` means: it is a visible write, no visible write is newer, and every later visible write
      is older. */
  lemma {:induction false} NewestIsNewest(log: seq<Write>, user: Bytes, s: nat)
    ensures var best := Newest(log, user, s);
      && (best.None? <==> forall w | w in log :: !(w.key == user && w.sequence <= s))
      && (best.Some? ==> best.value in log && best.value.key == user && best.value.sequence <= s)
      && (best.Some? ==> forall w | w in log && w.key == user && w.sequence <= s :: !Newer(w, best.value))
      && (best.Some? ==> exists i | 0 <= i < |log| :: log[i] == best.value && LaterAreOlder(log, user, s, i))
  {
    if log != [] {
      var n := |log| - 1;
      NewestIsNewest(log[..n], user, s);
      assert log == log[..n] + [log[n]];
      var best := Newest(log[..n], user, s);
      if best == Newest(log, user, s) && best.Some? {
        var i :| 0 <= i < n && log[..n][i] == best.value && LaterAreOlder(log[..n], user, s, i);
        OneMoreIsOlder(log, user, s, i);
      } else {
        assert LaterAreOlder(log, user, s, n);
      }
    }
  }

  predicate LaterAreOlder(log: seq<Write>, user: Bytes, s: nat, i: nat)
    requires i < |log|
  {
    forall j | i < j < |log| && log[j].key == user && log[j].sequence <= s :: Newer(log[i], log[j])
  }

  lemma OneMoreIsOlder(log: seq<Write>, user: Bytes, s: nat, i: nat)
    requires i < |log| - 1 && LaterAreOlder(log[..|log| - 1], user, s, i)
    requires var w := log[|log| - 1];
      w.key == user && w.sequence <= s ==> Newer(log[i], w) || w == log[i]
    ensures exists k | 0 <= k < |log| :: log[k] == log[i] && LaterAreOlder(log, user, s, k)
  {
    var n := |log| - 1;
    if log[n].key == user && log[n].sequence <= s && !Newer(log[i], log[n]) {
      assert LaterAreOlder(log, user, s, n);
    } else {
      forall j | i < j < |log| && log[j].key == user && log[j].sequence <= s ensures Newer(log[i], log[j]) {
        if j < n { assert log[..n][j] == log[j]; }
      }
      assert LaterAreOlder(log, user, s, i);
    }
  }

  /** Write number `i` is visible, no visible write is newer, and every later visible one is older. */
  ghost predicate IsNewest(log: seq<Write>, user: Bytes, s: nat, i: nat) {
    && i < |log| && log[i].key == user && log[i].sequence <= s
    && (forall w | w in log && w.key == user && w.sequence <= s :: !Newer(w, log[i]))
    && LaterAreOlder(log, user, s, i)
  }

  /** What a reader should be told: the value, if that write is of type 1; that the key is deleted, if it is of
      type 0; and that there is nothing, if no write is visible. */
  ghost predicate RightAnswer(log: seq<Write>, user: Bytes, s: nat, r: ReadResult) {
    && (forall i: nat | IsNewest(log, user, s, i) && log[i].kind == 1 :: r == Found(log[i].value))
    && (forall i: nat | IsNewest(log, user, s, i) && log[i].kind == 0 :: r == Deleted)
    && ((forall w | w in log :: !(w.key == user && w.sequence <= s)) ==> r == Missing)
  }

  lemma ReadAtIsRight(log: seq<Write>, user: Bytes, s: nat)
    ensures RightAnswer(log, user, s, ReadAt(log, user, s))
    ensures (exists w :: w in log && w.key == user && w.sequence <= s) ==> exists i: nat :: IsNewest(log, user, s, i)
  {
    NewestIsNewest(log, user, s);
    if Newest(log, user, s).Some? {
      var k: nat :| k < |log| && log[k] == Newest(log, user, s).value && LaterAreOlder(log, user, s, k);
      assert IsNewest(log, user, s, k);
    }
    hide Newest;
    forall i: nat | IsNewest(log, user, s, i) ensures Newest(log, user, s) == Some(log[i]) {
      var best := Newest(log, user, s);
      assert log[i] in log;
      var k :| 0 <= k < |log| && log[k] == best.value && LaterAreOlder(log, user, s, k);
      assert !Newer(log[k], log[i]) && !Newer(log[i], log[k]);
    }
  }

  /** The two types there are. */
  lemma ValidIff(w: Write)
    ensures w.Valid()
       <==> w.sequence < 0x100_0000_0000_0000 && (w.kind == 0 || w.kind == 1)
            && |w.key| + 8 < 0x1_0000_0000 && |w.value| < 0x1_0000_0000
  {
  }

  /** The bytes of an entry: both strings with their lengths, and the type in front of the sequence number. */
  lemma EntryBytes(w: Write)
    requires w.Valid()
    ensures EntryOf(w)
         == Varint(|w.key| + 8) + (w.key + [w.kind] + Fixed(w.sequence, 7)) + (Varint(|w.value|) + w.value)
  {
    ValidIsStorable(w);
    PackedBytes(w.key, w.sequence, w.kind);
    hide Varint, Fixed;
  }

  /** What `Get` seeks with has type 1. */
  lemma TargetBytes(user: Bytes, s: nat)
    requires s <= MAX_SEQUENCE && |user| + 8 < TWO_32
    ensures Target(user, s) == Varint(|user| + 8) + (user + [1] + Fixed(s, 7))
  {
    PackedBytes(user, s, 1);
    hide Varint, Fixed;
  }

  function ReadAt(log: seq<Write>, user: Bytes, s: nat): ReadResult {
    match Newest(log, user, s)
    case None => Missing
    case Some(w) => if w.kind == TYPE_VALUE then Found(w.value) else Deleted
  }

  // ---- A seek finds the newest visible write ----

  /** The entry that `Get` seeks with. */
  function Target(user: Bytes, s: nat): Entry
    requires s <= MAX_SEQUENCE && |user| + 8 < TWO_32
  {
    TargetIsEntry(user, s);
    Prefixed(MakeKey(user, s, TYPE_FOR_SEEK))
  }

  lemma TargetIsEntry(user: Bytes, s: nat)
    requires s <= MAX_SEQUENCE && |user| + 8 < TWO_32
    ensures IsEntry(Prefixed(MakeKey(user, s, TYPE_FOR_SEEK)))
    ensures KeyPart(Prefixed(MakeKey(user, s, TYPE_FOR_SEEK))) == MakeKey(user, s, TYPE_FOR_SEEK)
  {
    var key := MakeKey(user, s, TYPE_FOR_SEEK);
    PrefixedRoundTrip(key, []);
    assert Prefixed(key) + [] == Prefixed(key);
  }

  lemma WriteBeforeTarget(cmp: Comparator<Bytes>, w: Write, user: Bytes, s: nat)
    requires TotalOrder(cmp)
    requires w.Valid() && s <= MAX_SEQUENCE && |user| + 8 < TWO_32
    ensures Before(EntryOrder(cmp), EntryOf(w), Target(user, s))
       <==> Before(cmp, w.key, user) || (w.key == user && w.sequence > s)
  {
    ValidIsStorable(w);
    TargetIsEntry(user, s);
    EntryBefore(cmp, EntryOf(w), Target(user, s));
    PackedOrder(cmp, w.key, w.sequence, w.kind, user, s, TYPE_FOR_SEEK);
  }

  lemma WriteBeforeWrite(cmp: Comparator<Bytes>, a: Write, b: Write)
    requires TotalOrder(cmp)
    requires a.Valid() && b.Valid()
    ensures Before(EntryOrder(cmp), EntryOf(a), EntryOf(b)) <==> Before(cmp, a.key, b.key) || (a.key == b.key && Newer(a, b))
  {
    ValidIsStorable(a);
    ValidIsStorable(b);
    EntryBefore(cmp, EntryOf(a), EntryOf(b));
    PackedOrder(cmp, a.key, a.sequence, a.kind, b.key, b.sequence, b.kind);
  }

  /** A write as the entry that a seek stops at: the newest visible one, or else one of a greater key. */
  ghost predicate StopsAt(cmp: Comparator<Bytes>, best: Option<Write>, newest: Option<Write>, user: Bytes) {
    match newest
    case Some(w) => best == newest && w.key == user
    case None => best.None? || Before(cmp, user, best.value.key)
  }

  /** The write that a seek stops at, by the order of the list. */
  function BestWrite(cmp: Comparator<Bytes>, log: seq<Write>, user: Bytes, s: nat): (best: Option<Write>)
    requires AllValid(log) && s <= MAX_SEQUENCE && |user| + 8 < TWO_32
    ensures best.Some? ==> best.value.Valid()
  {
    if log == [] then None
    else
      var best, w := BestWrite(cmp, log[..|log| - 1], user, s), log[|log| - 1];
      if Before(EntryOrder(cmp), EntryOf(w), Target(user, s))
         || (best.Some? && Before(EntryOrder(cmp), EntryOf(best.value), EntryOf(w)))
      then best else Some(w)
  }

  function EntryOption(best: Option<Write>): Option<Entry>
    requires best.Some? ==> best.value.Valid()
  {
    if best.Some? then Some(EntryOf(best.value)) else None
  }

  lemma {:induction false} BestIsBestWrite(cmp: Comparator<Bytes>, log: seq<Write>, user: Bytes, s: nat)
    requires AllValid(log) && s <= MAX_SEQUENCE && |user| + 8 < TWO_32
    ensures BestInserted(EntryOrder(cmp), Entries(log), Target(user, s)) == EntryOption(BestWrite(cmp, log, user, s))
  {
    hide EntryOf, Target;
    if log != [] {
      var init := log[..|log| - 1];
      BestIsBestWrite(cmp, init, user, s);
      assert Entries(log)[..|log| - 1] == Entries(init) && Entries(log)[|log| - 1] == EntryOf(log[|log| - 1]);
    }
  }

  lemma {:induction false} BestWriteIsNewest(cmp: Comparator<Bytes>, log: seq<Write>, user: Bytes, s: nat)
    requires TotalOrder(cmp)
    requires AllValid(log) && s <= MAX_SEQUENCE && |user| + 8 < TWO_32
    ensures StopsAt(cmp, BestWrite(cmp, log, user, s), Newest(log, user, s), user)
  {
    hide EntryOf, Target, TotalOrder, Before;
    if log != [] {
      var init, w := log[..|log| - 1], log[|log| - 1];
      BestWriteIsNewest(cmp, init, user, s);
      WriteBeforeTarget(cmp, w, user, s);
      Trichotomy(cmp, w.key, user);
      var best := BestWrite(cmp, init, user, s);
      if best.Some? {
        WriteBeforeWrite(cmp, best.value, w);
        Trichotomy(cmp, best.value.key, w.key);
        Trichotomy(cmp, best.value.key, user);
      }
    }
  }

  /** Where a reader looks for the parts of an entry, it finds those of the write. */
  predicate Keeps(e: Bytes, w: Write) {
    && IsEntry(e)
    && UserKey(KeyPart(e)) == w.key && Sequence(KeyPart(e)) == w.sequence && Type(KeyPart(e)) == w.kind
    && ValuePart(e) == Some(w.value)
  }

  /** The entry keeps the write exactly if the sequence number fits into 56 bits and the lengths into 32. */
  lemma EntryKeptIff(w: Write)
    requires w.kind <= TYPE_FOR_SEEK
    ensures Keeps(BufferOf(w), w) <==> w.Valid()
  {
    if w.Valid() {
      ValidIsStorable(w);
      MadeKeyParts(w.key, w.sequence, w.kind);
    } else if IsEntry(BufferOf(w)) {
      LengthsAreShort(BufferOf(w));
      TagIsShort(KeyPart(BufferOf(w)));
    }
  }

  /** A sequence number of 57 bits is lost. */
  lemma EntryNotKept()
    ensures !Keeps(BufferOf(Write(MAX_SEQUENCE + 1, TYPE_VALUE, [], [])), Write(MAX_SEQUENCE + 1, TYPE_VALUE, [], []))
  {
    EntryKeptIff(Write(MAX_SEQUENCE + 1, TYPE_VALUE, [], []));
  }

  lemma LengthsAreShort(e: Entry)
    ensures |KeyPart(e)| < TWO_32
    ensures ValuePart(e).Some? ==> |ValuePart(e).value| < TWO_32
  {
    hide ParseVarint32;
  }

  lemma TagIsShort(k: InternalKey)
    ensures Sequence(k) <= MAX_SEQUENCE
  {
    hide FixedValue;
    FixedOfValue(k[|k| - 8..]);
    Widths();
  }

  /** The buffer that `Add` fills, and the length that it reserves for it beforehand. */
  method EncodeEntry(s: nat, t: nat, key: Bytes, value: Bytes) returns (buf: Bytes, encodedLen: nat)
    requires t <= TYPE_FOR_SEEK
    ensures buf == BufferOf(Write(s, t, key, value))
    ensures encodedLen == Reserved(Write(s, t, key, value))
  {
    hide Varint, Fixed;
    var internalKeySize := |key| + 8;
    var keyLength := VarintLength(internalKeySize);
    var valueLength := VarintLength(|value|);
    encodedLen := keyLength + internalKeySize + valueLength + |value|;
    var keyPrefix := EncodeVarint32(ToUint32(internalKeySize));
    var valuePrefix := EncodeVarint32(ToUint32(|value|));
    buf := keyPrefix + key + Fixed64((s * 256 + t) % TWO_64) + valuePrefix + value;
  }

  lemma InsertNextEntry(cmp: Comparator<Bytes>, log: seq<Write>, w: Write)
    ensures InsertAll(EntryOrder(cmp), Entries(log + [w]))
         == InsertKey(EntryOrder(cmp), InsertAll(EntryOrder(cmp), Entries(log)), EntryOf(w))
  {
    hide EntryOf, InsertKey;
    var after := Entries(log + [w]);
    assert (log + [w])[..|log|] == log;
    assert after[..|log|] == Entries(log) && after[|log|] == EntryOf(w);
  }

  /** The key that a seek stops at, in the sorted sequence of all entries written so far. */
  lemma SeekResult(cmp: Comparator<Bytes>, log: seq<Write>, user: Bytes, s: nat)
    requires TotalOrder(cmp)
    requires AllValid(log) && s <= MAX_SEQUENCE && |user| + 8 < TWO_32
    ensures var keys := InsertAll(EntryOrder(cmp), Entries(log));
      var n := LowerBound(EntryOrder(cmp), keys, Target(user, s));
      match Newest(log, user, s)
      case Some(w) => n < |keys| && w.Valid() && w.key == user && keys[n] == EntryOf(w)
      case None => n < |keys| ==> UserKey(KeyPart(keys[n])) != user
  {
    hide EntryOf, Target, InsertAll, LowerBound, Newest, BestWrite, EntryOrder, TotalOrder, TotalPreorder;
    EntryOrderIsPreorder(cmp);
    SeekFindsBest(EntryOrder(cmp), Entries(log), Target(user, s));
    BestIsBestWrite(cmp, log, user, s);
    BestWriteIsNewest(cmp, log, user, s);
    var best := BestWrite(cmp, log, user, s);
    if best.Some? {
      KeyOfEntry(best.value);
      Trichotomy(cmp, user, best.value.key);
    }
  }

  lemma KeyOfEntry(w: Write)
    requires w.Valid()
    ensures UserKey(KeyPart(EntryOf(w))) == w.key && Tag(KeyPart(EntryOf(w))) % 256 == w.kind
    ensures ValuePart(EntryOf(w)) == Some(w.value)
  {
    ValidIsStorable(w);
    MadeKeyParts(w.key, w.sequence, w.kind);
  }

  // ---- The table ----

  class MemTable {
    const cmp: Comparator<Bytes> // the user comparator
    const table: SkipList<Entry>
    ghost var log: seq<Write> // every write so far

    ghost predicate Valid()
      reads this, table, table.rnd, table.nodes
    {
      TotalOrder(cmp) && table.Valid() && table.cmp == EntryOrder(cmp) && Holds(cmp, table.Keys(), log)
    }

    constructor (cmp: Comparator<Bytes>)
      requires TotalOrder(cmp)
      ensures Valid() && log == [] && this.cmp == cmp
      ensures fresh(table) && fresh(table.rnd) && fresh(table.nodes)
    {
      EntryOrderIsPreorder(cmp);
      this.cmp := cmp;
      table := new SkipList<Entry>(EntryOrder(cmp), NO_ENTRY);
      log := [];
    }

    /** Any write for which the assertions of the source hold. */
    method Add(s: nat, t: nat, key: Bytes, value: Bytes)
      requires Valid() && Storable(Write(s, t, key, value))
      modifies this, table, table.rnd, table.nodes
      ensures Valid() && log == old(log) + [Write(s, t, key, value)]
    {
      hide *;
      ghost var w := Write(s, t, key, value);
      StorableMeans(w);
      var buf, encodedLen := EncodeEntry(s, t, key, value);
      assert |buf| == encodedLen;
      ReadyToAdd(w);
      table.Insert(buf);
      log := log + [w];
      Added();
    }

    lemma ReadyToAdd(w: Write)
      requires Valid() && Storable(w)
      ensures TotalOrder(cmp) && table.Valid() && table.cmp == EntryOrder(cmp) && |table.nodes| > 0
      ensures IsEntry(BufferOf(w)) && EntryOf(w) == BufferOf(w)
      ensures Holds(cmp, InsertKey(EntryOrder(cmp), table.Keys(), EntryOf(w)), log + [w])
    {
      hide BufferOf, Reserved;
      HoldsNext(cmp, table.Keys(), log, w);
    }

    lemma Added()
      requires TotalOrder(cmp) && table.Valid() && table.cmp == EntryOrder(cmp) && |table.nodes| > 0 && Holds(cmp, table.Keys(), log)
      ensures Valid()
    {
    }

    /** The comparator asserts that the length prefix of the lookup key announces eight bytes. If every write was kept
        by its entry, this is what a reader should see. */
    method Get(key: LookupKey, ghost user: Bytes, ghost s: nat) returns (r: ReadResult)
      requires Valid() && key.Represents(user, s) && IsEntry(key.buffer)
      ensures AllValid(log) ==> r == ReadAt(log, user, s) && RightAnswer(log, user, s, r)
    {
      var target: Entry := key.buffer;
      hide *;
      ReadAtIsRight(log, user, s);
      EntriesOfTable();
      var found := SeekKey(table, target);
      EntriesOfTable();
      LookupDecides(cmp, log, key, target, found, user, s);
      if found.Some? {
        var entry := found.value;
        Trichotomy(cmp, UserKey(KeyPart(entry)), user);
        if cmp(UserKey(KeyPart(entry)), key.UserPart()) == 0 {
          if Tag(KeyPart(entry)) % 256 == TYPE_VALUE {
            var v := ValuePart(entry);
            return if v.Some? then Found(v.value) else Garbled;
          }
          if Tag(KeyPart(entry)) % 256 == TYPE_DELETION {
            return Deleted;
          }
        }
      }
      return Missing;
    }

    lemma EntriesOfTable()
      requires Valid()
      ensures table.Valid() && table.cmp == EntryOrder(cmp)
      ensures TotalOrder(cmp) && |table.nodes| > 0 && table.Keys() == InsertAll(EntryOrder(cmp), Entries(log))
    {
    }
  }

  lemma LookupIsTarget(key: LookupKey, user: Bytes, s: nat)
    requires key.Represents(user, s) && |user| + 8 < TWO_32
    ensures s <= MAX_SEQUENCE && IsEntry(key.buffer) && key.buffer == Target(user, s) && key.UserPart() == user
  {
    TargetIsEntry(user, s);
    LookupParts(key, user, s);
    TargetParts(user, s);
    hide *;
  }

  lemma TargetParts(user: Bytes, s: nat)
    requires s <= MAX_SEQUENCE && |user| + 8 < TWO_32
    ensures Target(user, s) == Varint(|user| + 8) + MakeKey(user, s, TYPE_FOR_SEEK)
  {
    hide Varint, Fixed;
  }

  lemma LookupParts(key: LookupKey, user: Bytes, s: nat)
    requires key.Represents(user, s) && |user| + 8 < TWO_32
    ensures s <= MAX_SEQUENCE && key.buffer == Varint(|user| + 8) + MakeKey(user, s, TYPE_FOR_SEEK)
    ensures key.UserPart() == user
  {
    hide Varint, MakeKey, ToUint32, key.InternalPart, key.UserPart;
  }

  predicate IsType(t: nat) {
    t == TYPE_VALUE || t == TYPE_DELETION
  }

  /** What the entry that the seek stopped at says about the read. */
  lemma FoundDecides(cmp: Comparator<Bytes>, log: seq<Write>, found: Option<Entry>, user: Bytes, s: nat)
    requires TotalOrder(cmp)
    requires AllValid(log) && s <= MAX_SEQUENCE && |user| + 8 < TWO_32
    requires var keys := InsertAll(EntryOrder(cmp), Entries(log));
      found == KeyAt(keys, LowerBound(EntryOrder(cmp), keys, Target(user, s)))
    ensures if found.Some? && UserKey(KeyPart(found.value)) == user
            then ValuePart(found.value).Some? && IsType(Tag(KeyPart(found.value)) % 256)
                 && ReadAt(log, user, s) == if Tag(KeyPart(found.value)) % 256 == TYPE_VALUE
                                            then Found(ValuePart(found.value).value) else Deleted
            else ReadAt(log, user, s) == Missing
  {
    hide EntryOf, Target, InsertAll, LowerBound, Newest, KeyPart, ValuePart, UserKey, Tag;
    SeekResult(cmp, log, user, s);
    var newest := Newest(log, user, s);
    if newest.Some? { KeyOfEntry(newest.value); }
  }

  /** The same for every lookup key, also one that is longer than its length prefix can say. */
  lemma LookupDecides(cmp: Comparator<Bytes>, log: seq<Write>, key: LookupKey, target: Entry, found: Option<Entry>,
                      user: Bytes, s: nat)
    requires TotalOrder(cmp) && key.Represents(user, s) && target == key.buffer
    requires var keys := InsertAll(EntryOrder(cmp), Entries(log));
      found == KeyAt(keys, LowerBound(EntryOrder(cmp), keys, target))
    ensures key.UserPart() == user
    ensures AllValid(log) ==>
      if found.Some? && UserKey(KeyPart(found.value)) == user
      then ValuePart(found.value).Some? && IsType(Tag(KeyPart(found.value)) % 256)
           && ReadAt(log, user, s) == if Tag(KeyPart(found.value)) % 256 == TYPE_VALUE
                                      then Found(ValuePart(found.value).value) else Deleted
      else ReadAt(log, user, s) == Missing
  {
    hide *;
    UserPartIs(key, user, s);
    if AllValid(log) {
      if |user| + 8 < TWO_32 {
        LookupIsTarget(key, user, s);
        FoundDecides(cmp, log, found, user, s);
      } else {
        LongKeyMissing(log, user, s);
        if found.Some? { ShortUserKey(found.value); }
      }
    }
  }

  lemma UserPartIs(key: LookupKey, user: Bytes, s: nat)
    requires key.Represents(user, s)
    ensures key.UserPart() == user && s <= MAX_SEQUENCE
  {
    hide Varint, MakeKey, ToUint32, key.InternalPart, key.UserPart;
  }

  lemma ShortUserKey(e: Entry)
    ensures |UserKey(KeyPart(e))| + 8 < TWO_32
  {
    LengthsAreShort(e);
    hide KeyPart;
  }

  lemma LongKeyMissing(log: seq<Write>, user: Bytes, s: nat)
    requires AllValid(log) && |user| + 8 >= TWO_32
    ensures ReadAt(log, user, s) == Missing
  {
    NewestIsNewest(log, user, s);
  }

  lemma StorableMeans(w: Write)
    requires Storable(w)
    ensures w.kind <= TYPE_FOR_SEEK && |BufferOf(w)| == Reserved(w) && IsEntry(BufferOf(w))
  {
  }

  /** The list holds exactly the entries written, each inserted in front of its equals. */
  ghost predicate Holds(cmp: Comparator<Bytes>, keys: seq<Entry>, log: seq<Write>) {
    keys == InsertAll(EntryOrder(cmp), Entries(log))
  }

  lemma HoldsNext(cmp: Comparator<Bytes>, keys: seq<Entry>, log: seq<Write>, w: Write)
    requires Holds(cmp, keys, log)
    ensures Holds(cmp, InsertKey(EntryOrder(cmp), keys, EntryOf(w)), log + [w])
  {
    hide InsertAll, InsertKey, Entries, EntryOf;
    InsertNextEntry(cmp, log, w);
  }
}
