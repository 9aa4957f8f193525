/** The layout of a data block: prefix-compressed entries, restart points, and the restart array. */
module BlockFormat {
  import opened Bytes
  import opened Coding
  import opened Arithmetic
  import opened BytewiseComparator

  datatype Entry = Entry(key: Bytes, value: Bytes)

  // ---- What a builder writes ----

  /** How much of the key of entry `i` is taken from the entry before it, with a restart point at every
      `d`-th entry. */
  function Shared(d: nat, es: seq<Entry>, i: nat): (n: nat)
    requires d > 0 && i < |es|
    ensures n <= |es[i].key|
  {
    if i % d == 0 then 0 else CommonPrefix(es[i - 1].key, es[i].key)
  }

  function Header(shared: nat, nonShared: nat, valueLength: nat): Bytes {
    Varint(ToUint32(shared)) + Varint(ToUint32(nonShared)) + Varint(ToUint32(valueLength))
  }

  function EncodedAt(d: nat, es: seq<Entry>, i: nat): Bytes
    requires d > 0 && i < |es|
  {
    var shared := Shared(d, es, i);
    Header(shared, |es[i].key| - shared, |es[i].value|) + (es[i].key[shared..] + es[i].value)
  }

  /** The bytes of the first `i` entries. */
  function Area(d: nat, es: seq<Entry>, i: nat): Bytes
    requires d > 0 && i <= |es|
  {
    if i == 0 then [] else Area(d, es, i - 1) + EncodedAt(d, es, i - 1)
  }

  function Offset(d: nat, es: seq<Entry>, i: nat): nat
    requires d > 0 && i <= |es|
  {
    |Area(d, es, i)|
  }

  /** The restart points that the first `i` entries lead to. */
  function Restarts(d: nat, es: seq<Entry>, i: nat): seq<nat>
    requires d > 0 && i <= |es|
  {
    if i <= 1 then [0]
    else if (i - 1) % d == 0 then Restarts(d, es, i - 1) + [ToUint32(Offset(d, es, i - 1))]
    else Restarts(d, es, i - 1)
  }

  function RestartArray(restarts: seq<nat>): (bytes: Bytes)
    ensures |bytes| == 4 * |restarts|
  {
    if restarts == [] then [] else RestartArray(restarts[..|restarts| - 1]) + Fixed32(restarts[|restarts| - 1])
  }

  function Block(d: nat, es: seq<Entry>): Bytes
    requires d > 0
  {
    var restarts := Restarts(d, es, |es|);
    Area(d, es, |es|) + RestartArray(restarts) + Fixed32(|restarts|)
  }

  /** At a restart point nothing is shared; between them as much as there is, with the key before. */
  lemma SharedIsLongest(d: nat, es: seq<Entry>, i: nat, n: nat)
    requires d > 0 && i < |es|
    ensures i % d == 0 ==> Shared(d, es, i) == 0
    ensures i % d != 0 ==>
      && i > 0
      && (n <= Shared(d, es, i)
          <==> n <= |es[i - 1].key| && n <= |es[i].key| && es[i - 1].key[..n] == es[i].key[..n])
  {
    if i % d != 0 {
      assert i > 0;
      var a, b := es[i - 1].key, es[i].key;
      var m := CommonPrefix(a, b);
      if n <= m {
        assert a[..n] == a[..m][..n] && b[..n] == b[..m][..n];
      } else if n <= |a| && n <= |b| && a[..n] == b[..n] {
        SameInPrefix(a, b, n, m);
      }
    }
  }

  /** No entries, and "ab", "ac" and "b" with a restart point at every second entry. */
  lemma BlockExamples()
    ensures Block(16, []) == [0, 0, 0, 0, 1, 0, 0, 0]
    ensures Block(2, [Entry([97, 98], [49]), Entry([97, 99], [50]), Entry([98], [])])
         == [0, 2, 1, 97, 98, 49] + [1, 1, 1, 99, 50] + [0, 1, 0, 98]
            + [0, 0, 0, 0] + [11, 0, 0, 0] + [2, 0, 0, 0]
  {
    var es := [Entry([97, 98], [49]), Entry([97, 99], [50]), Entry([98], [])];
    SmallNumbers();
    ExampleEmpty();
    ExampleEntries(es);
    ExampleRestarts(es);
    hide Varint, Fixed32, Area, Restarts, RestartArray;
  }

  lemma ExampleEmpty()
    ensures Area(16, [], 0) == [] && Restarts(16, [], 0) == [0] && RestartArray([0]) == [0, 0, 0, 0]
  {
    SmallNumbers();
    hide Varint, Fixed32;
    assert [0 as nat][..0] == [] && RestartArray([]) == [];
  }

  lemma SmallNumbers()
    ensures Varint(0) == [0] && Varint(1) == [1] && Varint(2) == [2]
    ensures Fixed32(0) == [0, 0, 0, 0] && Fixed32(1) == [1, 0, 0, 0] && Fixed32(2) == [2, 0, 0, 0]
    ensures Fixed32(11) == [11, 0, 0, 0]
  {
  }

  lemma ExampleShared(es: seq<Entry>)
    requires es == [Entry([97, 98], [49]), Entry([97, 99], [50]), Entry([98], [])]
    ensures Shared(2, es, 0) == 0 && Shared(2, es, 1) == 1 && Shared(2, es, 2) == 0
  {
    assert es[0].key[..1] == [97] == es[1].key[..1];
    CommonPrefixUnique(es[0].key, es[1].key, 1);
  }

  lemma ExampleEntries(es: seq<Entry>)
    requires es == [Entry([97, 98], [49]), Entry([97, 99], [50]), Entry([98], [])]
    ensures Area(2, es, 1) == [0, 2, 1, 97, 98, 49]
    ensures Area(2, es, 2) == [0, 2, 1, 97, 98, 49] + [1, 1, 1, 99, 50]
    ensures Area(2, es, 3) == [0, 2, 1, 97, 98, 49] + [1, 1, 1, 99, 50] + [0, 1, 0, 98]
  {
    SmallNumbers();
    ExampleShared(es);
    hide Varint, Shared;
    assert Area(2, es, 0) == [];
    assert EncodedAt(2, es, 0) == [0, 2, 1, 97, 98, 49];
    assert EncodedAt(2, es, 1) == [1, 1, 1, 99, 50];
    assert EncodedAt(2, es, 2) == [0, 1, 0, 98];
    hide EncodedAt;
  }

  lemma ExampleRestarts(es: seq<Entry>)
    requires |es| == 3 && |Area(2, es, 2)| == 11
    ensures Restarts(2, es, 3) == [0, 11]
    ensures RestartArray([0, 11]) == [0, 0, 0, 0] + [11, 0, 0, 0]
  {
    SmallNumbers();
    hide Area, Fixed32;
    assert Restarts(2, es, 1) == [0] && Restarts(2, es, 2) == [0];
    assert [0 as nat, 11][..1] == [0] && [0 as nat][..0] == [] && RestartArray([0]) == [0, 0, 0, 0];
  }

  // ---- Later entries do not matter to earlier bytes ----

  lemma {:induction false} AreaOfPrefix(d: nat, es: seq<Entry>, more: seq<Entry>, i: nat)
    requires d > 0 && i <= |es|
    ensures Area(d, es + more, i) == Area(d, es, i)
  {
    hide EncodedAt;
    if i > 0 {
      AreaOfPrefix(d, es, more, i - 1);
      EncodedAtPrefix(d, es, more, i - 1);
    }
  }

  lemma EncodedAtPrefix(d: nat, es: seq<Entry>, more: seq<Entry>, i: nat)
    requires d > 0 && i < |es|
    ensures EncodedAt(d, es + more, i) == EncodedAt(d, es, i)
  {
    hide Header;
  }

  lemma {:induction false} RestartsOfPrefix(d: nat, es: seq<Entry>, more: seq<Entry>, i: nat)
    requires d > 0 && i <= |es|
    ensures Restarts(d, es + more, i) == Restarts(d, es, i)
  {
    if i > 1 {
      hide Area, ToUint32;
      RestartsOfPrefix(d, es, more, i - 1);
      AreaOfPrefix(d, es, more, i - 1);
    }
  }

  /** The bytes behind the first `i` entries. */
  function Tail(d: nat, es: seq<Entry>, i: nat): Bytes
    requires d > 0 && i <= |es|
    decreases |es| - i
  {
    if i == |es| then [] else EncodedAt(d, es, i) + Tail(d, es, i + 1)
  }

  lemma {:induction false} AreaSplits(d: nat, es: seq<Entry>, i: nat)
    requires d > 0 && i <= |es|
    ensures Area(d, es, |es|) == Area(d, es, i) + Tail(d, es, i)
    decreases |es| - i
  {
    hide EncodedAt;
    if i == |es| {
      assert Area(d, es, i) + [] == Area(d, es, i);
    } else {
      AreaSplits(d, es, i + 1);
      assert Area(d, es, i + 1) == Area(d, es, i) + EncodedAt(d, es, i);
      SeqAssociative(Area(d, es, i), EncodedAt(d, es, i), Tail(d, es, i + 1));
    }
  }

  lemma SeqAssociative(a: Bytes, b: Bytes, c: Bytes)
    ensures (a + b) + c == a + (b + c)
  {
  }

  lemma TailAt(d: nat, es: seq<Entry>, i: nat)
    requires d > 0 && i <= |es|
    ensures Offset(d, es, i) <= |Area(d, es, |es|)|
    ensures Area(d, es, |es|)[Offset(d, es, i)..] == Tail(d, es, i)
  {
    AreaSplits(d, es, i);
  }

  // ---- Reading an entry ----

  datatype EntryHeader = EntryHeader(shared: nat, nonShared: nat, valueLength: nat, length: nat)

  /** Three varints. */
  function ParseHeader(data: Bytes): (r: Option<EntryHeader>)
    ensures r.Some? ==> 3 <= r.value.length <= |data|
  {
    match ParseVarint32(data)
    case None => None
    case Some(a) =>
      match ParseVarint32(data[a.length..])
      case None => None
      case Some(b) =>
        match ParseVarint32(data[a.length + b.length..])
        case None => None
        case Some(c) => Some(EntryHeader(a.value, b.value, c.value, a.length + b.length + c.length))
  }

  /** `DecodeEntry` on the bytes from `p` to `limit`: a fast path for three one-byte lengths, and a
      check, in 32-bit arithmetic, that key and value are there. */
  function DecodeEntry(data: Bytes): (r: Option<EntryHeader>)
    ensures r.Some? ==> 3 <= r.value.length <= |data|
  {
    if |data| < 3 then None
    else
      var header :=
        if data[0] < 128 && data[1] < 128 && data[2] < 128
        then Some(EntryHeader(data[0], data[1], data[2], 3))
        else ParseHeader(data);
      match header
      case None => None
      case Some(h) =>
        if ToUint32(|data| - h.length) < ToUint32(h.nonShared + h.valueLength) then None else Some(h)
  }

  /** The entry ends inside the data exactly when the two lengths do not overflow 32 bits: the check of
      `DecodeEntry` compares with their wrapped sum. */
  lemma CheckedIffNoOverflow(data: Bytes)
    requires |data| < TWO_32 && DecodeEntry(data).Some?
    ensures var h := DecodeEntry(data).value;
      h.length + h.nonShared + h.valueLength <= |data| <==> h.nonShared + h.valueLength < TWO_32
  {
    hide ParseHeader;
  }

  /** What the check does ensure: the wrapped sum of the lengths fits. */
  lemma WrappedSumFits(data: Bytes)
    requires |data| < TWO_32 && DecodeEntry(data).Some?
    ensures var h := DecodeEntry(data).value; h.length + ToUint32(h.nonShared + h.valueLength) <= |data|
  {
    hide ParseHeader;
  }

  /** Eight bytes that pass the check, hold their key, and announce a value that reaches outside. */
  lemma OverflowInValue(k: Byte)
    ensures var data: Bytes := [0, 1, 0xff, 0xff, 0xff, 0xff, 0x0f, k];
      DecodeEntry(data) == Some(EntryHeader(0, 1, TWO_32 - 1, 7))
  {
    var data: Bytes := [0, 1, 0xff, 0xff, 0xff, 0xff, 0x0f, k];
    VarintUnfolded(TWO_32 - 1);
    assert Varint(0) == [0] && Varint(1) == [1];
    hide Varint, ParseHeader;
    assert Header(0, 1, TWO_32 - 1) + [k] == data;
    HeaderParses(0, 1, TWO_32 - 1, [k]);
    hide Header;
  }

  /** Seven bytes that pass the check and announce a key of 2^32 - 1 bytes. */
  lemma OverflowPasses()
    ensures var data: Bytes := [0, 0xff, 0xff, 0xff, 0xff, 0x0f, 1];
      && DecodeEntry(data) == Some(EntryHeader(0, TWO_32 - 1, 1, 7))
  {
    var data: Bytes := [0, 0xff, 0xff, 0xff, 0xff, 0x0f, 1];
    VarintUnfolded(TWO_32 - 1);
    assert Varint(0) == [0] && Varint(1) == [1];
    hide Varint, ParseHeader;
    assert Header(0, TWO_32 - 1, 1) + [] == data;
    HeaderParses(0, TWO_32 - 1, 1, []);
    hide Header;
  }

  lemma FastPathAgrees(data: Bytes)
    requires |data| >= 3 && data[0] < 128 && data[1] < 128 && data[2] < 128
    ensures ParseHeader(data) == Some(EntryHeader(data[0], data[1], data[2], 3))
  {
    OneByteVarint(data);
    OneByteVarint(data[1..]);
    OneByteVarint(data[2..]);
  }

  lemma OneByteVarint(data: Bytes)
    requires |data| >= 1 && data[0] < 128
    ensures ParseVarint32(data) == Some(Parsed(data[0], 1))
  {
  }

  lemma HeaderParses(shared: nat, nonShared: nat, valueLength: nat, rest: Bytes)
    requires shared < TWO_32 && nonShared < TWO_32 && valueLength < TWO_32
    ensures ParseHeader(Header(shared, nonShared, valueLength) + rest)
         == Some(EntryHeader(shared, nonShared, valueLength, |Header(shared, nonShared, valueLength)|))
    ensures |Header(shared, nonShared, valueLength)| >= 3
  {
    hide Varint, ParseVarint32;
    var a, b, c := Varint(shared), Varint(nonShared), Varint(valueLength);
    var data := Header(shared, nonShared, valueLength) + rest;
    assert data == a + (b + (c + rest));
    Varint32RoundTrip(shared, b + (c + rest));
    assert data[|a|..] == b + (c + rest);
    Varint32RoundTrip(nonShared, c + rest);
    assert data[|a| + |b|..] == c + rest;
    Varint32RoundTrip(valueLength, rest);
  }

  /** What was encoded is decoded, whatever follows. */
  lemma DecodesHeader(shared: nat, key: Bytes, value: Bytes, rest: Bytes)
    requires shared <= |key| < TWO_32 && |value| < TWO_32
    requires |Header(shared, |key| - shared, |value|) + (key[shared..] + value) + rest| < TWO_32
    ensures DecodeEntry(Header(shared, |key| - shared, |value|) + (key[shared..] + value) + rest)
         == Some(EntryHeader(shared, |key| - shared, |value|, |Header(shared, |key| - shared, |value|)|))
  {
    hide Header, ParseHeader;
    var header, body := Header(shared, |key| - shared, |value|), key[shared..] + value;
    var data := header + body + rest;
    HeaderParses(shared, |key| - shared, |value|, body + rest);
    assert data == header + (body + rest);
    if data[0] < 128 && data[1] < 128 && data[2] < 128 {
      FastPathAgrees(data);
    }
  }

  // ---- Sizes ----

  lemma {:induction false} OffsetsGrow(d: nat, es: seq<Entry>, i: nat, j: nat)
    requires d > 0 && i <= j <= |es|
    ensures Offset(d, es, i) <= Offset(d, es, j)
    ensures i < j ==> Offset(d, es, i) < Offset(d, es, j)
  {
    hide EncodedAt;
    if i < j {
      OffsetsGrow(d, es, i, j - 1);
      EncodedAtSize(d, es, j - 1);
    }
  }

  lemma EncodedAtSize(d: nat, es: seq<Entry>, i: nat)
    requires d > 0 && i < |es|
    ensures |EncodedAt(d, es, i)| >= 3 + (|es[i].key| - Shared(d, es, i)) + |es[i].value|
  {
    hide Varint, Shared;
  }

  /** No key or value is longer than the bytes up to its end. */
  lemma {:induction false} EntryFits(d: nat, es: seq<Entry>, i: nat)
    requires d > 0 && i < |es|
    ensures |es[i].key| <= Offset(d, es, i + 1) && |es[i].value| <= Offset(d, es, i + 1)
  {
    hide EncodedAt;
    EncodedAtSize(d, es, i);
    if i > 0 {
      EntryFits(d, es, i - 1);
    }
  }

  // ---- Decoding a whole area ----

  function EndOf(h: EntryHeader): nat {
    h.length + h.nonShared + h.valueLength
  }

  predicate InBounds(data: Bytes, key: Bytes, h: EntryHeader) {
    h.shared <= |key| && EndOf(h) <= |data|
  }

  /** The entry that a header announces. */
  function EntryFrom(data: Bytes, key: Bytes, h: EntryHeader): Entry
    requires InBounds(data, key, h)
  {
    Entry(key[..h.shared] + data[h.length..h.length + h.nonShared], data[h.length + h.nonShared..EndOf(h)])
  }

  function Prepend(e: Entry, rest: Option<seq<Entry>>): Option<seq<Entry>> {
    if rest.Some? then Some([e] + rest.value) else None
  }

  /** The entries spelled by `data`, when the key before them is `key`. */
  function DecodeAll(data: Bytes, key: Bytes): Option<seq<Entry>>
    decreases |data|
  {
    if data == [] then Some([])
    else
      var h := DecodeEntry(data);
      if h.None? || !InBounds(data, key, h.value) then None
      else Prepend(EntryFrom(data, key, h.value), DecodeAll(data[EndOf(h.value)..], EntryFrom(data, key, h.value).key))
  }

  /** `key` is a good key to start from at entry `i`. */
  predicate ReadyFor(d: nat, es: seq<Entry>, i: nat, key: Bytes)
    requires d > 0 && i < |es|
  {
    var n := Shared(d, es, i);
    n <= |key| && key[..n] == es[i].key[..n]
  }

  /** The key of the entry before is good; at a restart point any key is. */
  lemma ReadyAfterPrevious(d: nat, es: seq<Entry>, i: nat)
    requires d > 0 && 0 < i < |es|
    ensures ReadyFor(d, es, i, es[i - 1].key)
  {
  }

  lemma ReadyAtRestart(d: nat, es: seq<Entry>, i: nat, key: Bytes)
    requires d > 0 && i < |es| && i % d == 0
    ensures ReadyFor(d, es, i, key)
  {
  }

  /** Entry `i` is read at its offset, and the next one lies behind it. */
  lemma EntryDecodes(d: nat, es: seq<Entry>, i: nat, key: Bytes)
    requires d > 0 && i < |es| && |Area(d, es, |es|)| < TWO_32 && ReadyFor(d, es, i, key)
    ensures var data := Tail(d, es, i); var h := DecodeEntry(data);
      && data != [] && h.Some? && h.value.shared == Shared(d, es, i)
      && InBounds(data, key, h.value) && EntryFrom(data, key, h.value) == es[i]
      && EndOf(h.value) == |EncodedAt(d, es, i)|
      && data[EndOf(h.value)..] == Tail(d, es, i + 1)
  {
    hide *;
    var shared, data := Shared(d, es, i), Tail(d, es, i);
    var header := Header(shared, |es[i].key| - shared, |es[i].value|);
    HeaderDecodes(d, es, i);
    TailUnfolds(d, es, i);
    EncodedAtIs(d, es, i);
    SplitEncoded(data, header, es[i].key[shared..], es[i].value, Tail(d, es, i + 1));
    ReadyMeans(d, es, i, key);
    EntryOfHeader(data, key, EntryHeader(shared, |es[i].key| - shared, |es[i].value|, |header|), es[i]);
  }

  lemma ReadyMeans(d: nat, es: seq<Entry>, i: nat, key: Bytes)
    requires d > 0 && i < |es| && ReadyFor(d, es, i, key)
    ensures Shared(d, es, i) <= |key| && key[..Shared(d, es, i)] == es[i].key[..Shared(d, es, i)]
  {
  }

  lemma EntryOfHeader(data: Bytes, key: Bytes, h: EntryHeader, e: Entry)
    requires h.shared <= |key| && h.shared <= |e.key| && key[..h.shared] == e.key[..h.shared]
    requires h.nonShared == |e.key| - h.shared && h.valueLength == |e.value|
    requires h.length + h.nonShared + h.valueLength <= |data|
    requires data[h.length..h.length + h.nonShared] == e.key[h.shared..]
    requires data[h.length + h.nonShared..h.length + h.nonShared + h.valueLength] == e.value
    ensures InBounds(data, key, h) && EntryFrom(data, key, h) == e
    ensures EndOf(h) == h.length + h.nonShared + h.valueLength
  {
    assert e.key == e.key[..h.shared] + e.key[h.shared..];
  }

  lemma HeaderDecodes(d: nat, es: seq<Entry>, i: nat)
    requires d > 0 && i < |es| && |Area(d, es, |es|)| < TWO_32
    ensures var shared := Shared(d, es, i);
      var header := Header(shared, |es[i].key| - shared, |es[i].value|);
      && |header| >= 3
      && DecodeEntry(Tail(d, es, i)) == Some(EntryHeader(shared, |es[i].key| - shared, |es[i].value|, |header|))
  {
    hide *;
    var shared, key, value := Shared(d, es, i), es[i].key, es[i].value;
    EntryFits(d, es, i);
    OffsetsGrow(d, es, i + 1, |es|);
    OffsetIs(d, es, i + 1);
    OffsetIs(d, es, |es|);
    TailAt(d, es, i);
    TailUnfolds(d, es, i);
    EncodedAtIs(d, es, i);
    DecodesHeader(shared, key, value, Tail(d, es, i + 1));
  }

  lemma OffsetIs(d: nat, es: seq<Entry>, i: nat)
    requires d > 0 && i <= |es|
    ensures Offset(d, es, i) == |Area(d, es, i)|
  {
  }

  lemma TailUnfolds(d: nat, es: seq<Entry>, i: nat)
    requires d > 0 && i < |es|
    ensures Tail(d, es, i) == EncodedAt(d, es, i) + Tail(d, es, i + 1)
  {
  }

  lemma EncodedAtIs(d: nat, es: seq<Entry>, i: nat)
    requires d > 0 && i < |es|
    ensures var shared := Shared(d, es, i);
      EncodedAt(d, es, i) == Header(shared, |es[i].key| - shared, |es[i].value|) + (es[i].key[shared..] + es[i].value)
  {
  }

  lemma SplitEncoded(data: Bytes, a: Bytes, b: Bytes, c: Bytes, rest: Bytes)
    requires data == a + (b + c) + rest
    ensures |data| == |a| + |b| + |c| + |rest|
    ensures
      && data[|a|..|a| + |b|] == b && data[|a| + |b|..|a| + |b| + |c|] == c && data[|a| + |b| + |c|..] == rest
  {
  }

  lemma DecodeAllUnfolds(data: Bytes, key: Bytes)
    requires data != [] && DecodeEntry(data).Some? && InBounds(data, key, DecodeEntry(data).value)
    ensures var h := DecodeEntry(data).value; var e := EntryFrom(data, key, h);
      EndOf(h) <= |data| && DecodeAll(data, key) == Prepend(e, DecodeAll(data[EndOf(h)..], e.key))
  {
    hide DecodeEntry, EntryFrom, EndOf;
  }

  lemma NothingToDecode(d: nat, es: seq<Entry>, key: Bytes)
    requires d > 0
    ensures DecodeAll(Tail(d, es, |es|), key) == Some([])
  {
  }

  lemma PrependIs(e: Entry, rest: seq<Entry>)
    ensures Prepend(e, Some(rest)) == Some([e] + rest)
  {
  }

  /** Decoding from any entry, with a good key, yields exactly the entries from there on. */
  lemma {:induction false} TailDecodes(d: nat, es: seq<Entry>, i: nat, key: Bytes)
    requires d > 0 && i <= |es| && |Area(d, es, |es|)| < TWO_32
    requires i < |es| ==> ReadyFor(d, es, i, key)
    ensures DecodeAll(Tail(d, es, i), key) == Some(es[i..])
    decreases |es| - i
  {
    hide *;
    if i == |es| {
      NothingToDecode(d, es, key);
      assert es[i..] == [];
    } else {
      EntryDecodes(d, es, i, key);
      if i + 1 < |es| { ReadyAfterPrevious(d, es, i + 1); }
      TailDecodes(d, es, i + 1, es[i].key);
      DecodeAllUnfolds(Tail(d, es, i), key);
      PrependIs(es[i], es[i + 1..]);
      assert es[i..] == [es[i]] + es[i + 1..];
    }
  }

  // ---- Restart points ----

  function RestartCount(d: nat, n: nat): nat
    requires d > 0
  {
    if n == 0 then 1 else (n - 1) / d + 1
  }

  lemma {:induction false} RestartsLength(d: nat, es: seq<Entry>, i: nat)
    requires d > 0 && i <= |es|
    ensures |Restarts(d, es, i)| == RestartCount(d, i)
  {
    if i == 1 {
      DivOfSum(d, 0, 0);
    } else if i > 1 {
      RestartsLength(d, es, i - 1);
      DivStep(d, i - 1);
    }
  }

  lemma RestartsUnfold(d: nat, es: seq<Entry>, i: nat)
    requires d > 0 && i < |es|
    ensures Restarts(d, es, i + 1)
         == if i > 0 && i % d == 0 then Restarts(d, es, i) + [ToUint32(Offset(d, es, i))] else Restarts(d, es, i)
  {
  }

  /** Restart `k` is the offset of entry `k * d`. */
  lemma {:induction false} RestartAt(d: nat, es: seq<Entry>, i: nat, k: nat)
    requires d > 0 && i <= |es| && k < |Restarts(d, es, i)|
    ensures k * d <= i && (0 < i ==> k * d < i)
    ensures Restarts(d, es, i)[k] == ToUint32(Offset(d, es, k * d))
    decreases i
  {
    if i <= 1 {
      assert k == 0;
    } else {
      hide Restarts, Offset, ToUint32;
      RestartsUnfold(d, es, i - 1);
      if (i - 1) % d == 0 && k == |Restarts(d, es, i)| - 1 {
        RestartsLength(d, es, i - 1);
        DivStep(d, i - 1);
        ExactQuotient(d, i - 1);
      } else {
        RestartAt(d, es, i - 1, k);
      }
    }
  }

  lemma RestartIsMultiple(d: nat, k: nat)
    requires d > 0
    ensures k * d % d == 0
  {
    DivOfSum(d, k, 0);
  }

  /** Every restart point belongs to an entry, unless there is none. */
  lemma RestartEntryFits(d: nat, n: nat, k: nat)
    requires d > 0 && k < RestartCount(d, n)
    ensures k * d <= n && (0 < n ==> k * d < n)
  {
    if n == 0 {
      assert k * d == 0;
    } else {
      var q := (n - 1) / d;
      assert n - 1 == d * q + (n - 1) % d;
      assert k * d <= q * d;
    }
  }

  // ---- Taking a block apart ----

  function NumRestarts(block: Bytes): nat {
    if |block| >= 4 then FixedValue(block[|block| - 4..]) else 0
  }

  /** Where the entries end: the restart array is measured back from the end of the block. */
  function RestartOffset(block: Bytes): (at: nat)
    ensures at <= |block|
  {
    var size := (1 + NumRestarts(block)) * 4;
    if size <= |block| then |block| - size else 0
  }

  function RestartPoint(block: Bytes, k: nat): nat {
    var at := RestartOffset(block) + 4 * k;
    if at + 4 <= |block| then FixedValue(block[at..at + 4]) else 0
  }

  lemma {:induction false} RestartArrayAt(restarts: seq<nat>, k: nat)
    requires k < |restarts|
    ensures RestartArray(restarts)[4 * k..4 * k + 4] == Fixed32(restarts[k])
  {
    hide Fixed32;
    var init, last := restarts[..|restarts| - 1], restarts[|restarts| - 1];
    var points := RestartArray(restarts);
    assert points == RestartArray(init) + Fixed32(last);
    if k < |init| {
      RestartArrayAt(init, k);
      assert points[4 * k..4 * k + 4] == RestartArray(init)[4 * k..4 * k + 4];
    } else {
      assert points[4 * k..4 * k + 4] == Fixed32(last);
    }
  }

  lemma SplitCount(area: Bytes, points: Bytes, count: Bytes, n: nat)
    requires count == Fixed32(n) && |points| == 4 * n && n < TWO_32
    ensures var block := area + points + count;
      NumRestarts(block) == n && RestartOffset(block) == |area| && block[..|area|] == area
  {
    hide FixedValue, Fixed32;
    Fixed32RoundTrip(n);
    var block := area + points + count;
    assert block[|block| - 4..] == count;
  }

  /** The last four bytes of a block locate everything else, exactly. */
  lemma BlockSplits(d: nat, es: seq<Entry>)
    requires d > 0 && |Block(d, es)| < TWO_32
    ensures var block := Block(d, es);
      && |block| >= 8 && NumRestarts(block) == RestartCount(d, |es|)
      && RestartOffset(block) == |Area(d, es, |es|)| && block[..RestartOffset(block)] == Area(d, es, |es|)
  {
    hide *;
    var restarts := Restarts(d, es, |es|);
    BlockIs(d, es);
    CountPositive(d, |es|);
    RestartsLength(d, es, |es|);
    SplitCount(Area(d, es, |es|), RestartArray(restarts), Fixed32(|restarts|), |restarts|);
  }

  lemma BlockIs(d: nat, es: seq<Entry>)
    requires d > 0
    ensures var restarts := Restarts(d, es, |es|);
      Block(d, es) == Area(d, es, |es|) + RestartArray(restarts) + Fixed32(|restarts|)
  {
  }

  lemma CountPositive(d: nat, n: nat)
    requires d > 0
    ensures RestartCount(d, n) > 0 && 0 % d == 0
  {
    DivOfSum(d, 0, 0);
  }

  lemma SplitPoint(area: Bytes, restarts: seq<nat>, count: Bytes, k: nat)
    requires count == Fixed32(|restarts|) && |restarts| < TWO_32
    requires k < |restarts| && restarts[k] < TWO_32
    ensures RestartPoint(area + RestartArray(restarts) + count, k) == restarts[k]
  {
    hide FixedValue, Fixed32, RestartArray, NumRestarts, RestartOffset;
    var points := RestartArray(restarts);
    var block := area + points + count;
    SplitCount(area, points, count, |restarts|);
    RestartArrayAt(restarts, k);
    Fixed32RoundTrip(restarts[k]);
    assert block[|area| + 4 * k..|area| + 4 * k + 4] == points[4 * k..4 * k + 4];
  }

  /** Restart point `k` of a block is where entry `i == k * d` begins. */
  lemma RestartPointIs(d: nat, es: seq<Entry>, k: nat, i: nat)
    requires d > 0 && |Block(d, es)| < TWO_32
    requires k < RestartCount(d, |es|) && i == k * d && i <= |es|
    ensures RestartPoint(Block(d, es), k) == Offset(d, es, i) <= RestartOffset(Block(d, es))
  {
    hide *;
    var restarts := Restarts(d, es, |es|);
    BlockIs(d, es);
    BlockSplits(d, es);
    RestartsLength(d, es, |es|);
    RestartAt(d, es, |es|, k);
    OffsetsGrow(d, es, i, |es|);
    OffsetIs(d, es, |es|);
    SplitPoint(Area(d, es, |es|), restarts, Fixed32(|restarts|), k);
  }

  // ---- Round trips ----

  /** A block is taken apart by its last four bytes and decoded, entry by entry. */
  lemma BlockRoundTrip(d: nat, es: seq<Entry>)
    requires d > 0 && |Block(d, es)| < TWO_32
    ensures var block := Block(d, es); DecodeAll(block[..RestartOffset(block)], []) == Some(es)
  {
    hide *;
    CountPositive(d, |es|);
    BlockSplits(d, es);
    WholeTail(d, es);
    if |es| > 0 { ReadyAtRestart(d, es, 0, []); }
    TailDecodes(d, es, 0, []);
    assert es[0..] == es;
  }

  lemma WholeTail(d: nat, es: seq<Entry>)
    requires d > 0
    ensures Tail(d, es, 0) == Area(d, es, |es|)
  {
    AreaSplits(d, es, 0);
    assert Area(d, es, 0) == [];
  }

  /** From restart point `k`, with no key to start from, decoding yields exactly the entries from
      number `k * d` on. */
  lemma RestartRoundTrip(d: nat, es: seq<Entry>, k: nat, i: nat)
    requires d > 0 && |Block(d, es)| < TWO_32
    requires k < NumRestarts(Block(d, es)) && i == k * d
    ensures var block := Block(d, es);
      && RestartPoint(block, k) <= RestartOffset(block) && i <= |es|
      && DecodeAll(block[..RestartOffset(block)][RestartPoint(block, k)..], []) == Some(es[i..])
  {
    hide *;
    BlockSplits(d, es);
    RestartEntryFits(d, |es|, k);
    RestartPointIs(d, es, k, i);
    TailAt(d, es, i);
    RestartIsMultiple(d, k);
    if i < |es| { ReadyAtRestart(d, es, i, []); }
    TailDecodes(d, es, i, []);
  }

  /** Restart points increase, so that a search may bisect them. */
  lemma RestartsIncrease(d: nat, es: seq<Entry>, j: nat, k: nat)
    requires d > 0 && |Block(d, es)| < TWO_32 && j < k < NumRestarts(Block(d, es))
    ensures RestartPoint(Block(d, es), j) < RestartPoint(Block(d, es), k)
  {
    hide *;
    BlockSplits(d, es);
    RestartEntryFits(d, |es|, j);
    RestartEntryFits(d, |es|, k);
    RestartPointIs(d, es, j, j * d);
    RestartPointIs(d, es, k, k * d);
    assert j * d < k * d;
    OffsetsGrow(d, es, j * d, k * d);
  }

  /** Unique decodability: a block determines its entries, whatever restart interval built it. */
  lemma BlockDeterminesEntries(d: nat, es: seq<Entry>, d': nat, es': seq<Entry>)
    requires d > 0 && d' > 0 && Block(d, es) == Block(d', es') && |Block(d, es)| < TWO_32
    ensures es == es'
  {
    hide *;
    BlockRoundTrip(d, es);
    BlockRoundTrip(d', es');
  }
}
