/** table/block_builder: a block is built by one `Add` per entry, then `Finish`. */
module BlockBuilder {
  import opened Arithmetic
  import opened Bytes
  import opened BytewiseComparator
  import opened Coding
  import opened BlockFormat

  /** Entries since the last restart point, after `n` entries. */
  function Counter(d: nat, n: nat): nat
    requires d > 0
  {
    if n == 0 then 0 else (n - 1) % d + 1
  }

  function LastKey(es: seq<Entry>): Bytes {
    if es == [] then [] else es[|es| - 1].key
  }

  /** The fields of a builder after it was given `es`; `area` is the buffer without a restart array. */
  ghost predicate Describes(d: nat, es: seq<Entry>, area: Bytes, restarts: seq<nat>, counter: nat, lastKey: Bytes) {
    && d > 0 && area == Area(d, es, |es|) && restarts == Restarts(d, es, |es|)
    && counter == Counter(d, |es|) && lastKey == LastKey(es)
  }

  /** How much of `key` is shared with `lastKey`: the scan of `Add`. */
  method ScanShared(lastKey: Bytes, key: Bytes) returns (shared: nat)
    ensures shared == CommonPrefix(lastKey, key)
  {
    var minLength := if |lastKey| < |key| then |lastKey| else |key|;
    shared := 0;
    while shared < minLength && lastKey[shared] == key[shared]
      invariant shared <= minLength && lastKey[..shared] == key[..shared]
    {
      OneMoreShared(lastKey, key, shared);
      shared := shared + 1;
    }
    CommonPrefixUnique(lastKey, key, shared);
  }

  class BlockBuilder {
    const interval: nat // options_->block_restart_interval, the same throughout
    var buffer: Bytes
    var restarts: seq<nat>
    var counter: nat
    var finished: bool
    var lastKey: Bytes
    ghost var entries: seq<Entry> // what has been added since the last `Reset`
    ghost var area: Bytes         // the buffer before `Finish`

    ghost predicate Valid()
      reads this
    {
      && Describes(interval, entries, area, restarts, counter, lastKey)
      && buffer == if finished then Block(interval, entries) else area
    }

    constructor (interval: nat)
      requires interval >= 1
      ensures Valid() && entries == [] && !finished && this.interval == interval
    {
      this.interval := interval;
      buffer, restarts, counter, finished, lastKey := [], [0], 0, false, [];
      entries, area := [], [];
    }

    method Reset()
      requires Valid()
      modifies this
      ensures Valid() && entries == [] && !finished
    {
      buffer, restarts, counter, finished, lastKey := [], [0], 0, false, [];
      entries, area := [], [];
    }

    method Add(key: Bytes, value: Bytes)
      requires Valid() && !finished
      modifies this
      ensures Valid() && !finished && entries == old(entries) + [Entry(key, value)]
    {
      hide Describes, Block, CommonPrefix, Varint;
      AddedEntry(interval, entries, buffer, restarts, counter, lastKey, Entry(key, value));
      var shared := 0;
      if counter < interval {
        shared := ScanShared(lastKey, key);
      } else {
        restarts := restarts + [ToUint32(|buffer|)];
        counter := 0;
      }

      var nonShared := |key| - shared;
      var a := EncodeVarint32(ToUint32(shared));
      var b := EncodeVarint32(ToUint32(nonShared));
      var c := EncodeVarint32(ToUint32(|value|));
      buffer := buffer + (a + b + c + (key[shared..] + value));
      lastKey := lastKey[..shared] + key[shared..];
      assert lastKey == key;
      counter := counter + 1;
      entries, area := entries + [Entry(key, value)], buffer;
    }

    method Finish() returns (block: Bytes)
      requires Valid() && !finished
      modifies this
      ensures Valid() && finished && entries == old(entries)
      ensures block == buffer == Block(interval, entries)
    {
      hide Fixed32;
      ghost var points := restarts;
      for i := 0 to |restarts|
        invariant restarts == points && buffer == area + RestartArray(points[..i])
        invariant entries == old(entries) && area == old(area) && counter == old(counter) && lastKey == old(lastKey)
      {
        assert points[..i + 1][..i] == points[..i];
        buffer := buffer + Fixed32(restarts[i]);
      }
      assert points[..|points|] == points;
      buffer := buffer + Fixed32(|restarts|);
      finished := true;
      block := buffer;
    }

    method Empty() returns (empty: bool)
      requires Valid() && !finished
      ensures empty <==> entries == []
    {
      if entries != [] {
        EntriesTakeSpace(interval, entries);
      }
      empty := buffer == [];
    }

    /** The estimate is exact. */
    method CurrentSizeEstimate() returns (size: nat)
      requires Valid() && !finished
      ensures size == |Block(interval, entries)|
    {
      size := |buffer| + |restarts| * 4 + 4;
    }
  }

  /** What one more entry makes of the fields. */
  lemma AddedEntry(d: nat, es: seq<Entry>, area: Bytes, restarts: seq<nat>, counter: nat, lastKey: Bytes, e: Entry)
    requires Describes(d, es, area, restarts, counter, lastKey)
    ensures var shared := if counter < d then CommonPrefix(lastKey, e.key) else 0;
      var header := Varint(ToUint32(shared)) + Varint(ToUint32(|e.key| - shared)) + Varint(ToUint32(|e.value|));
      Describes(d, es + [e], area + (header + (e.key[shared..] + e.value)),
                if counter < d then restarts else restarts + [ToUint32(|area|)],
                if counter < d then counter + 1 else 1, e.key)
  {
    hide Area, EncodedAt, CommonPrefix, Varint, ToUint32, Restarts, Counter;
    var n, more := |es|, es + [e];
    AreaOfPrefix(d, es, [e], n);
    RestartsOfPrefix(d, es, [e], n);
    CounterSteps(d, n);
    RestartsUnfold(d, more, n);
    AreaUnfolds(d, more, n);
    EncodedAtIs(d, more, n);
    if n == 0 { NothingShared(e.key); }
  }

  lemma CounterSteps(d: nat, n: nat)
    requires d > 0
    ensures Counter(d, n) < d <==> n == 0 || n % d != 0
    ensures Counter(d, n + 1) == if Counter(d, n) < d then Counter(d, n) + 1 else 1
  {
    DivOfSum(d, 0, 0);
    if n > 0 { ModStep(d, n); }
  }

  lemma NothingShared(key: Bytes)
    ensures CommonPrefix([], key) == 0
  {
  }

  lemma EntriesTakeSpace(d: nat, es: seq<Entry>)
    requires d > 0 && |es| > 0
    ensures Area(d, es, |es|) != []
  {
    hide Varint;
    AreaUnfolds(d, es, |es| - 1);
  }

  lemma AreaUnfolds(d: nat, es: seq<Entry>, i: nat)
    requires d > 0 && i < |es|
    ensures Area(d, es, i + 1) == Area(d, es, i) + EncodedAt(d, es, i)
  {
  }
}
