/** The shape of a skip list: a sequence of tower heights, and who is linked to whom at each level. */
module Towers {
  const MAX_HEIGHT: nat := 12

  ghost predicate Distinct<T>(s: seq<T>) {
    forall i, j | 0 <= i < j < |s| :: s[i] != s[j]
  }

  /** The first tower at or after `from` that reaches above `level`; the end if there is none. */
  function NextAbove(hs: seq<nat>, from: nat, level: nat): (q: nat)
    requires from <= |hs|
    ensures from <= q <= |hs|
    ensures q < |hs| ==> hs[q] > level
    decreases |hs| - from
  {
    if from == |hs| || hs[from] > level then from else NextAbove(hs, from + 1, level)
  }

  lemma {:induction false} NextAboveSkips(hs: seq<nat>, from: nat, level: nat, i: nat)
    requires from <= |hs| && from <= i < NextAbove(hs, from, level)
    ensures hs[i] <= level
    decreases |hs| - from
  {
    if i != from {
      NextAboveSkips(hs, from + 1, level, i);
    }
  }

  lemma NextAboveUnique(hs: seq<nat>, from: nat, level: nat, q: nat)
    requires from <= q <= |hs|
    requires forall i | from <= i < q :: hs[i] <= level
    requires q < |hs| ==> hs[q] > level
    ensures NextAbove(hs, from, level) == q
  {
    var r := NextAbove(hs, from, level);
    if q < r { NextAboveSkips(hs, from, level, q); }
  }

  /** The last tower before `pos` that reaches above `level`. */
  function LastBelow(hs: seq<nat>, pos: nat, level: nat): (p: nat)
    requires 0 < pos <= |hs| && hs[0] > level
    ensures p < pos && hs[p] > level
  {
    if hs[pos - 1] > level then pos - 1 else LastBelow(hs, pos - 1, level)
  }

  lemma {:induction false} LastBelowSkips(hs: seq<nat>, pos: nat, level: nat, i: nat)
    requires 0 < pos <= |hs| && hs[0] > level
    requires LastBelow(hs, pos, level) < i < pos
    ensures hs[i] <= level
  {
    if i != pos - 1 {
      LastBelowSkips(hs, pos - 1, level, i);
    }
  }

  /** The last tower before `pos` is the one that links across `pos`. */
  lemma LastBelowIff(hs: seq<nat>, pos: nat, level: nat, p: nat)
    requires 0 < pos <= |hs| && hs[0] > level
    requires p < pos && hs[p] > level
    ensures LastBelow(hs, pos, level) == p <==> pos <= NextAbove(hs, p + 1, level)
  {
    var r, q := LastBelow(hs, pos, level), NextAbove(hs, p + 1, level);
    if r < p { LastBelowSkips(hs, pos, level, p); }
    if p < r < q { NextAboveSkips(hs, p + 1, level, r); }
    if r == p && q < pos { LastBelowSkips(hs, pos, level, q); }
  }

  // ---- Inserting a tower ----

  function InsertAt<T>(s: seq<T>, pos: nat, x: T): (r: seq<T>)
    requires pos <= |s|
    ensures |r| == |s| + 1
  {
    s[..pos] + [x] + s[pos..]
  }

  /** Where what was at `i` is after an insertion at `pos`. */
  function Moved(pos: nat, i: nat): nat {
    if i < pos then i else i + 1
  }

  lemma InsertedAt<T>(s: seq<T>, pos: nat, x: T, j: nat)
    requires pos <= |s| && j <= |s|
    ensures InsertAt(s, pos, x)[j] == if j < pos then s[j] else if j == pos then x else s[j - 1]
    ensures j < pos ==> Moved(pos, j) == j
    ensures j > pos ==> Moved(pos, j - 1) == j
  {
  }

  /** An old tower still links to where it did, unless the new one now stands in between. */
  lemma NextAfterInsert(hs: seq<nat>, pos: nat, h: nat, level: nat, p: nat)
    requires pos <= |hs| && p < |hs|
    ensures var q := NextAbove(hs, p + 1, level);
      NextAbove(InsertAt(hs, pos, h), Moved(pos, p) + 1, level)
      == if p < pos <= q && h > level then pos else Moved(pos, q)
  {
    hide NextAbove, InsertAt;
    var q, after := NextAbove(hs, p + 1, level), InsertAt(hs, pos, h);
    var r := if p < pos <= q && h > level then pos else Moved(pos, q);
    forall i | Moved(pos, p) + 1 <= i < r ensures after[i] <= level {
      InsertedAt(hs, pos, h, i);
      if i != pos { NextAboveSkips(hs, p + 1, level, if i < pos then i else i - 1); }
    }
    if r < |after| { InsertedAt(hs, pos, h, r); }
    NextAboveUnique(after, Moved(pos, p) + 1, level, r);
  }

  /** The new tower links to where the last tower before it did. */
  lemma NextOfInserted(hs: seq<nat>, pos: nat, h: nat, level: nat)
    requires 0 < pos <= |hs| && hs[0] > level
    ensures var q := NextAbove(hs, LastBelow(hs, pos, level) + 1, level);
      pos <= q && NextAbove(InsertAt(hs, pos, h), pos + 1, level) == q + 1
  {
    hide NextAbove, LastBelow, InsertAt;
    var p, after := LastBelow(hs, pos, level), InsertAt(hs, pos, h);
    var q := NextAbove(hs, p + 1, level);
    LastBelowIff(hs, pos, level, p);
    forall i | pos + 1 <= i < q + 1 ensures after[i] <= level {
      InsertedAt(hs, pos, h, i);
      NextAboveSkips(hs, p + 1, level, i - 1);
    }
    if q < |hs| { InsertedAt(hs, pos, h, q + 1); }
    NextAboveUnique(after, pos + 1, level, q + 1);
  }

  // ---- The list at a level ----

  /** The towers from `from` on that reach above `level`, in order. */
  function Level(hs: seq<nat>, from: nat, level: nat): seq<nat>
    requires from <= |hs|
    decreases |hs| - from
  {
    var q := NextAbove(hs, from, level);
    if q == |hs| then [] else [q] + Level(hs, q + 1, level)
  }

  /** Following the links of a level visits exactly the towers that reach above it, upwards. */
  lemma {:induction false} LevelMembers(hs: seq<nat>, from: nat, level: nat, i: nat)
    requires from <= |hs|
    ensures i in Level(hs, from, level) <==> from <= i < |hs| && hs[i] > level
    decreases |hs| - from
  {
    var q := NextAbove(hs, from, level);
    if from <= i < q { NextAboveSkips(hs, from, level, i); }
    if q < |hs| {
      LevelMembers(hs, q + 1, level, i);
    }
  }

  /** The link from each tower of a level leads to the next tower of that level. */
  lemma {:induction false} LevelLinks(hs: seq<nat>, from: nat, level: nat, k: nat)
    requires from <= |hs| && k < |Level(hs, from, level)|
    ensures var towers := Level(hs, from, level);
      && towers[k] < |hs|
      && NextAbove(hs, towers[k] + 1, level) == if k + 1 < |towers| then towers[k + 1] else |hs|
    decreases k
  {
    var q := NextAbove(hs, from, level);
    if k != 0 {
      LevelLinks(hs, q + 1, level, k - 1);
    }
  }

  lemma LevelIs(hs: seq<nat>, from: nat, level: nat)
    requires from <= |hs|
    ensures var q := NextAbove(hs, from, level);
      Level(hs, from, level) == if q == |hs| then [] else [q] + Level(hs, q + 1, level)
  {
  }

  predicate Subsequence(a: seq<nat>, b: seq<nat>) {
    if a == [] then true
    else if b == [] then false
    else if a[0] == b[0] then Subsequence(a[1..], b[1..])
    else Subsequence(a, b[1..])
  }

  /** Each level is a subsequence of the level below it. */
  lemma {:induction false} LevelsThinOut(hs: seq<nat>, from: nat, level: nat)
    requires from <= |hs|
    ensures Subsequence(Level(hs, from, level + 1), Level(hs, from, level))
    decreases |hs| - from
  {
    hide NextAbove, Level;
    var q := NextAbove(hs, from, level);
    LevelIs(hs, from, level);
    LevelIs(hs, from, level + 1);
    forall i | from <= i < q ensures hs[i] <= level {
      NextAboveSkips(hs, from, level, i);
    }
    if q == |hs| {
      NextAboveUnique(hs, from, level + 1, q);
    } else {
      LevelsThinOut(hs, q + 1, level);
      if hs[q] > level + 1 {
        NextAboveUnique(hs, from, level + 1, q);
      } else {
        var up := NextAbove(hs, q + 1, level + 1);
        forall i | from <= i < up ensures hs[i] <= level + 1 {
          if i > q { NextAboveSkips(hs, q + 1, level + 1, i); }
        }
        NextAboveUnique(hs, from, level + 1, up);
        LevelIs(hs, q + 1, level + 1);
      }
    }
  }
}
