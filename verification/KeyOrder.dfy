/** Keys under an abstract three-way comparator, and the sorted sequences that a skip list stands for. */
module KeyOrder {
  import opened Bytes
  import opened Towers

  type Comparator<!K> = (K, K) -> int

  predicate Before<K>(cmp: Comparator<K>, a: K, b: K) {
    cmp(a, b) < 0
  }

  /** What the skip list asks of `compare_`. Keys may compare equal without being equal. */
  ghost predicate TotalPreorder<K(!new)>(cmp: Comparator<K>) {
    && (forall a, b :: Before(cmp, a, b) <==> cmp(b, a) > 0)
    && (forall a, b, c :: Before(cmp, a, b) && !Before(cmp, c, b) ==> Before(cmp, a, c))
  }

  lemma EqualIff<K(!new)>(cmp: Comparator<K>, a: K, b: K)
    requires TotalPreorder(cmp)
    ensures cmp(a, b) == 0 <==> !Before(cmp, a, b) && !Before(cmp, b, a)
  {
  }

  /** What include/leveldb/comparator.h asks of a comparator: only equal keys compare equal. */
  ghost predicate TotalOrder<K(!new)>(cmp: Comparator<K>) {
    TotalPreorder(cmp) && forall a, b :: cmp(a, b) == 0 ==> a == b
  }

  lemma Trichotomy<K(!new)>(cmp: Comparator<K>, a: K, b: K)
    requires TotalOrder(cmp)
    ensures cmp(a, b) == 0 <==> a == b
    ensures !Before(cmp, a, b) <==> a == b || Before(cmp, b, a)
    ensures Before(cmp, a, b) ==> a != b && !Before(cmp, b, a)
  {
    EqualIff(cmp, a, b);
    EqualIff(cmp, a, a);
  }

  lemma BeforeAsymmetric<K(!new)>(cmp: Comparator<K>, a: K, b: K)
    requires TotalPreorder(cmp) && Before(cmp, a, b)
    ensures !Before(cmp, b, a)
  {
  }

  lemma BeforeTransitive<K(!new)>(cmp: Comparator<K>, a: K, b: K, c: K)
    requires TotalPreorder(cmp) && Before(cmp, a, b) && Before(cmp, b, c)
    ensures Before(cmp, a, c)
  {
    BeforeAsymmetric(cmp, b, c);
  }

  type Separator<!K> = (K, K) -> K

  /** And what it asks of `FindShortestSeparator`: a key in [a, b) if a < b, and otherwise no change. */
  ghost predicate Separates<K(!new)>(cmp: Comparator<K>, separate: Separator<K>) {
    forall a, b {:trigger separate(a, b)} ::
      if Before(cmp, a, b) then !Before(cmp, separate(a, b), a) && Before(cmp, separate(a, b), b)
      else separate(a, b) == a
  }

  ghost predicate Sorted<K>(cmp: Comparator<K>, keys: seq<K>) {
    forall i, j | 0 <= i < j < |keys| :: !Before(cmp, keys[j], keys[i])
  }

  ghost predicate StrictlySorted<K>(cmp: Comparator<K>, keys: seq<K>) {
    forall i, j | 0 <= i < j < |keys| :: Before(cmp, keys[i], keys[j])
  }

  /** The number of keys in front of the first one that is not before `key`. */
  function LowerBound<K>(cmp: Comparator<K>, keys: seq<K>, key: K): (n: nat)
    ensures n <= |keys|
    ensures forall i | 0 <= i < n :: Before(cmp, keys[i], key)
    ensures n < |keys| ==> !Before(cmp, keys[n], key)
  {
    if keys == [] || !Before(cmp, keys[0], key) then 0
    else
      var rest := LowerBound(cmp, keys[1..], key);
      assert forall i | 1 <= i < 1 + rest :: keys[i] == keys[1..][i - 1];
      1 + rest
  }

  lemma LowerBoundUnique<K>(cmp: Comparator<K>, keys: seq<K>, key: K, n: nat)
    requires n <= |keys| && (forall i | 0 <= i < n :: Before(cmp, keys[i], key))
    requires n < |keys| ==> !Before(cmp, keys[n], key)
    ensures LowerBound(cmp, keys, key) == n
  {
    var m := LowerBound(cmp, keys, key);
  }

  /** In a sorted sequence the keys before `key` come first. */
  lemma LowerBoundSplits<K(!new)>(cmp: Comparator<K>, keys: seq<K>, key: K)
    requires TotalPreorder(cmp) && Sorted(cmp, keys)
    ensures forall i | 0 <= i < |keys| :: Before(cmp, keys[i], key) <==> i < LowerBound(cmp, keys, key)
  {
    var n := LowerBound(cmp, keys, key);
    forall i | n <= i < |keys| ensures !Before(cmp, keys[i], key) {
      if i > n {
        assert !Before(cmp, keys[i], keys[n]);
      }
    }
  }

  /** `Insert` as an operation on the sequence of keys. */
  function InsertKey<K>(cmp: Comparator<K>, keys: seq<K>, key: K): seq<K> {
    var n := LowerBound(cmp, keys, key);
    InsertAt(keys, n, key)
  }

  lemma InsertKeySorted<K(!new)>(cmp: Comparator<K>, keys: seq<K>, key: K)
    requires TotalPreorder(cmp) && Sorted(cmp, keys)
    ensures Sorted(cmp, InsertKey(cmp, keys, key))
    ensures multiset(InsertKey(cmp, keys, key)) == multiset(keys) + multiset{key}
  {
    var n, after := LowerBound(cmp, keys, key), InsertKey(cmp, keys, key);
    LowerBoundSplits(cmp, keys, key);
    InsertAddsOne(keys, n, key);
    hide LowerBound, InsertAt;
    forall i, j | 0 <= i < j < |after| ensures !Before(cmp, after[j], after[i]) {
      InsertedAt(keys, n, key, i);
      InsertedAt(keys, n, key, j);
      if i < n && j == n { BeforeAsymmetric(cmp, keys[i], key); }
    }
  }

  lemma InsertAddsOne<K>(keys: seq<K>, n: nat, key: K)
    requires n <= |keys|
    ensures multiset(InsertAt(keys, n, key)) == multiset(keys) + multiset{key}
  {
    assert keys == keys[..n] + keys[n..];
  }

  /** The keys after a run of insertions into an empty list. */
  function InsertAll<K>(cmp: Comparator<K>, inserted: seq<K>): seq<K> {
    if inserted == [] then []
    else InsertKey(cmp, InsertAll(cmp, inserted[..|inserted| - 1]), inserted[|inserted| - 1])
  }

  /** Every run of insertions sorts: what comes out is what went in, in order. */
  lemma {:induction false} InsertAllSorts<K(!new)>(cmp: Comparator<K>, inserted: seq<K>)
    requires TotalPreorder(cmp)
    ensures Sorted(cmp, InsertAll(cmp, inserted))
    ensures multiset(InsertAll(cmp, inserted)) == multiset(inserted)
  {
    if inserted != [] {
      var init, last := inserted[..|inserted| - 1], inserted[|inserted| - 1];
      InsertAllSorts(cmp, init);
      InsertKeySorted(cmp, InsertAll(cmp, init), last);
      LastCounts(inserted);
      hide TotalPreorder, Sorted, InsertKey;
    }
  }

  lemma LastCounts<K>(keys: seq<K>)
    requires keys != []
    ensures multiset(keys) == multiset(keys[..|keys| - 1]) + multiset{keys[|keys| - 1]}
  {
    assert keys == keys[..|keys| - 1] + [keys[|keys| - 1]];
  }

  /** The key that a seek to `target` finds after a run of insertions: the least that is not before it,
      and of those that compare equal the one inserted last. */
  function BestInserted<K>(cmp: Comparator<K>, inserted: seq<K>, target: K): Option<K> {
    if inserted == [] then None
    else
      var best := BestInserted(cmp, inserted[..|inserted| - 1], target);
      var key := inserted[|inserted| - 1];
      if Before(cmp, key, target) || (best.Some? && Before(cmp, best.value, key)) then best else Some(key)
  }

  function KeyAt<K>(keys: seq<K>, n: nat): Option<K> {
    if n < |keys| then Some(keys[n]) else None
  }

  lemma {:induction false} SeekFindsBest<K(!new)>(cmp: Comparator<K>, inserted: seq<K>, target: K)
    requires TotalPreorder(cmp)
    ensures var keys := InsertAll(cmp, inserted);
      KeyAt(keys, LowerBound(cmp, keys, target)) == BestInserted(cmp, inserted, target)
  {
    if inserted != [] {
      var init, key := inserted[..|inserted| - 1], inserted[|inserted| - 1];
      SeekFindsBest(cmp, init, target);
      InsertAllSorts(cmp, init);
      SeekAfterInsert(cmp, InsertAll(cmp, init), key, target);
    }
  }

  /** An insertion moves the result of a seek to the new key exactly when that is not before the target
      and the old result is not before it. */
  lemma SeekAfterInsert<K(!new)>(cmp: Comparator<K>, keys: seq<K>, key: K, target: K)
    requires TotalPreorder(cmp) && Sorted(cmp, keys)
    ensures var n, after := LowerBound(cmp, keys, target), InsertKey(cmp, keys, key);
      KeyAt(after, LowerBound(cmp, after, target))
      == if Before(cmp, key, target) || (n < |keys| && Before(cmp, keys[n], key)) then KeyAt(keys, n) else Some(key)
  {
    var n, m, after := LowerBound(cmp, keys, target), LowerBound(cmp, keys, key), InsertKey(cmp, keys, key);
    LowerBoundSplits(cmp, keys, key);
    if Before(cmp, key, target) {
      if n < m { BeforeTransitive(cmp, keys[n], key, target); }
      assert m <= n;
      hide LowerBound, InsertAt, TotalPreorder, Sorted;
      forall i | 0 <= i <= n ensures Before(cmp, after[i], target) {
        InsertedAt(keys, m, key, i);
      }
      if n < |keys| { InsertedAt(keys, m, key, n + 1); }
      LowerBoundUnique(cmp, after, target, n + 1);
    } else {
      assert n <= m;
      hide LowerBound, InsertAt, TotalPreorder, Sorted;
      forall i | 0 <= i < n ensures Before(cmp, after[i], target) {
        InsertedAt(keys, m, key, i);
      }
      InsertedAt(keys, m, key, n);
      LowerBoundUnique(cmp, after, target, n);
    }
  }

  /** Membership by search: the key at the lower bound is the only candidate. */
  lemma FoundIff<K(!new)>(cmp: Comparator<K>, keys: seq<K>, key: K)
    requires TotalPreorder(cmp) && Sorted(cmp, keys)
    ensures (exists k | k in keys :: cmp(key, k) == 0)
        <==> var n := LowerBound(cmp, keys, key); n < |keys| && cmp(key, keys[n]) == 0
  {
    var n := LowerBound(cmp, keys, key);
    LowerBoundSplits(cmp, keys, key);
    if k :| k in keys && cmp(key, k) == 0 {
      var i :| 0 <= i < |keys| && keys[i] == k;
      EqualIff(cmp, key, k);
      assert n <= i;
      assert !Before(cmp, keys[i], keys[n]) || i == n;
      EqualIff(cmp, key, keys[n]);
    }
  }

  // ---- Iteration, as positions in the sequence ----

  /** The position before the first key that compares equal to the one at `i`, -1 if there is none. */
  function PrevPosition<K>(cmp: Comparator<K>, keys: seq<K>, i: nat): int
    requires i < |keys|
  {
    LowerBound(cmp, keys, keys[i]) - 1
  }

  /** `Prev` undoes `Next` exactly between keys that differ. */
  lemma PrevUndoesNextIff<K(!new)>(cmp: Comparator<K>, keys: seq<K>, i: nat)
    requires TotalPreorder(cmp) && Sorted(cmp, keys) && i + 1 < |keys|
    ensures PrevPosition(cmp, keys, i + 1) == i <==> Before(cmp, keys[i], keys[i + 1])
  {
    LowerBoundSplits(cmp, keys, keys[i + 1]);
    assert !Before(cmp, keys[i + 1], keys[i + 1]);
  }

  /** Two equal keys: `Prev` from the second does not lead to the first. */
  lemma PrevSkipsEqualKey<K(!new)>(cmp: Comparator<K>, key: K)
    requires TotalPreorder(cmp)
    ensures InsertAll(cmp, [key, key]) == [key, key] && PrevPosition(cmp, [key, key], 1) == -1
  {
    EqualIff(cmp, key, key);
    assert [key, key][..1] == [key] && [key][..0] == [];
    assert InsertAll(cmp, [key]) == [key];
    LowerBoundUnique(cmp, [key], key, 0);
    LowerBoundUnique(cmp, [key, key], key, 0);
  }

  lemma PrevDescends<K(!new)>(cmp: Comparator<K>, keys: seq<K>, i: nat)
    requires TotalPreorder(cmp) && i < |keys|
    ensures -1 <= PrevPosition(cmp, keys, i) < i
  {
  }

  /** The positions that a walk from `i` by `Prev` visits. */
  ghost function BackwardPositions<K(!new)>(cmp: Comparator<K>, keys: seq<K>, i: int): seq<nat>
    requires TotalPreorder(cmp) && -1 <= i < |keys|
    decreases i
  {
    if i < 0 then []
    else
      PrevDescends(cmp, keys, i);
      [i] + BackwardPositions(cmp, keys, PrevPosition(cmp, keys, i))
  }

  /** The keys that it visits. */
  ghost function BackwardKeys<K(!new)>(cmp: Comparator<K>, keys: seq<K>, i: int): seq<K>
    requires TotalPreorder(cmp) && -1 <= i < |keys|
    decreases i
  {
    if i < 0 then []
    else
      PrevDescends(cmp, keys, i);
      [keys[i]] + BackwardKeys(cmp, keys, PrevPosition(cmp, keys, i))
  }

  lemma BackwardKeysStep<K(!new)>(cmp: Comparator<K>, keys: seq<K>, i: nat)
    requires TotalPreorder(cmp) && i < |keys|
    ensures -1 <= PrevPosition(cmp, keys, i) < i
    ensures BackwardKeys(cmp, keys, i) == [keys[i]] + BackwardKeys(cmp, keys, PrevPosition(cmp, keys, i))
  {
    PrevDescends(cmp, keys, i);
  }

  lemma BackwardKeysEnd<K(!new)>(cmp: Comparator<K>, keys: seq<K>)
    requires TotalPreorder(cmp)
    ensures BackwardKeys(cmp, keys, -1) == []
  {
  }

  lemma {:induction false} BackwardKeysAreAt<K(!new)>(cmp: Comparator<K>, keys: seq<K>, i: int)
    requires TotalPreorder(cmp) && -1 <= i < |keys|
    ensures var visited := BackwardPositions(cmp, keys, i);
      && |BackwardKeys(cmp, keys, i)| == |visited|
      && forall a | 0 <= a < |visited| :: visited[a] < |keys| && BackwardKeys(cmp, keys, i)[a] == keys[visited[a]]
    decreases i
  {
    if i >= 0 {
      PrevDescends(cmp, keys, i);
      hide PrevPosition, TotalPreorder;
      BackwardKeysAreAt(cmp, keys, PrevPosition(cmp, keys, i));
    }
  }

  /** Between a position and the one that `Prev` leads to, only the latter ends a run. */
  lemma OnlyRunEndBetween<K(!new)>(cmp: Comparator<K>, keys: seq<K>, i: nat, j: nat)
    requires TotalPreorder(cmp) && Sorted(cmp, keys) && i < |keys|
    requires PrevPosition(cmp, keys, i) <= j < i
    ensures Before(cmp, keys[j], keys[j + 1]) <==> j == PrevPosition(cmp, keys, i)
  {
    LowerBoundSplits(cmp, keys, keys[i]);
    assert Before(cmp, keys[j], keys[i]) <==> j == PrevPosition(cmp, keys, i);
    if j + 1 < i {
      assert !Before(cmp, keys[i], keys[j + 1]);
    }
  }

  /** The walk goes down. */
  lemma {:induction false} BackwardDescends<K(!new)>(cmp: Comparator<K>, keys: seq<K>, i: int)
    requires TotalPreorder(cmp) && -1 <= i < |keys|
    ensures var visited := BackwardPositions(cmp, keys, i);
      && (visited != [] ==> visited[0] == i)
      && forall a | 0 < a < |visited| :: visited[a] < visited[a - 1]
    decreases i
  {
    if i >= 0 {
      PrevDescends(cmp, keys, i);
      var p := PrevPosition(cmp, keys, i);
      var rest, visited := BackwardPositions(cmp, keys, p), BackwardPositions(cmp, keys, i);
      BackwardDescends(cmp, keys, p);
      assert visited[1..] == rest;
      forall a | 0 < a < |visited| ensures visited[a] < visited[a - 1] {
        assert visited[a] == rest[a - 1];
        if a > 1 { assert visited[a - 1] == rest[a - 2]; }
      }
    }
  }

  /** The walk visits the last key of every run of equal keys up to `i`, and nothing else. */
  lemma {:induction false} BackwardVisitsRunEnds<K(!new)>(cmp: Comparator<K>, keys: seq<K>, i: int, j: nat)
    requires TotalPreorder(cmp) && Sorted(cmp, keys) && -1 <= i < |keys|
    ensures j in BackwardPositions(cmp, keys, i)
       <==> j <= i && (j == i || Before(cmp, keys[j], keys[j + 1]))
    decreases i
  {
    if i >= 0 {
      PrevDescends(cmp, keys, i);
      BackwardVisitsRunEnds(cmp, keys, PrevPosition(cmp, keys, i), j);
      if PrevPosition(cmp, keys, i) <= j < i {
        OnlyRunEndBetween(cmp, keys, i, j);
      }
    }
  }

  /** The last key of a run of equal keys. */
  predicate EndsRun<K>(cmp: Comparator<K>, keys: seq<K>, j: nat) {
    j < |keys| && (j == |keys| - 1 || Before(cmp, keys[j], keys[j + 1]))
  }

  /** The positions of the last keys of the runs of equal keys, from the last run to the first. */
  ghost predicate RunEndsBackward<K>(cmp: Comparator<K>, keys: seq<K>, visited: seq<nat>) {
    && (forall a | 0 < a < |visited| :: visited[a] < visited[a - 1])
    && (forall j: nat :: j in visited <==> EndsRun(cmp, keys, j))
  }

  lemma BackwardWalk<K(!new)>(cmp: Comparator<K>, keys: seq<K>)
    requires TotalPreorder(cmp) && Sorted(cmp, keys)
    ensures RunEndsBackward(cmp, keys, BackwardPositions(cmp, keys, |keys| - 1))
  {
    hide TotalPreorder, Sorted, EndsRun, BackwardPositions;
    BackwardDescends(cmp, keys, |keys| - 1);
    forall j: nat
      ensures j in BackwardPositions(cmp, keys, |keys| - 1) <==> EndsRun(cmp, keys, j)
    {
      BackwardVisitsAll(cmp, keys, j);
    }
  }

  lemma BackwardVisitsAll<K(!new)>(cmp: Comparator<K>, keys: seq<K>, j: nat)
    requires TotalPreorder(cmp) && Sorted(cmp, keys)
    ensures j in BackwardPositions(cmp, keys, |keys| - 1) <==> EndsRun(cmp, keys, j)
  {
    hide TotalPreorder, Sorted, BackwardPositions, Before;
    BackwardVisitsRunEnds(cmp, keys, |keys| - 1, j);
  }

  /** With pairwise different keys the backward walk is the exact reverse of the forward one. */
  lemma {:induction false} BackwardIsReverse<K(!new)>(cmp: Comparator<K>, keys: seq<K>, i: int)
    requires TotalPreorder(cmp) && StrictlySorted(cmp, keys) && -1 <= i < |keys|
    ensures |BackwardPositions(cmp, keys, i)| == i + 1
    ensures forall k | 0 <= k <= i :: BackwardPositions(cmp, keys, i)[k] == i - k
    decreases i
  {
    if i >= 0 {
      StrictPrev(cmp, keys, i);
      hide PrevPosition, TotalPreorder, StrictlySorted;
      BackwardIsReverse(cmp, keys, i - 1);
    }
  }

  lemma StrictPrev<K(!new)>(cmp: Comparator<K>, keys: seq<K>, i: nat)
    requires TotalPreorder(cmp) && StrictlySorted(cmp, keys) && i < |keys|
    ensures PrevPosition(cmp, keys, i) == i - 1
  {
    PrevDescends(cmp, keys, i);
    var n := LowerBound(cmp, keys, keys[i]);
  }
}
