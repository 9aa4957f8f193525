/** util/arena: a bump allocator. Addresses are numbers below 2^64, and 0 is `NULL`; where `new char[n]`
    puts a block is not the arena's choice, so it comes in as a parameter. */
module Arena {
  import opened Coding

  const BLOCK_SIZE: nat := 4096
  const ALIGN: nat := 8
  const POINTER_SIZE: nat := 8

  datatype Range = Range(base: nat, size: nat) {
    function End(): nat {
      base + size
    }
  }

  predicate Inside(r: Range, q: Range) {
    q.base <= r.base && r.End() <= q.End()
  }

  /** No byte lies in both. */
  predicate Apart(r: Range, q: Range) {
    r.size == 0 || q.size == 0 || r.End() <= q.base || q.End() <= r.base
  }

  // ---- What one request does ----

  datatype State = State(ptr: nat, remaining: nat, blocks: seq<Range>, usage: nat)

  const EMPTY := State(0, 0, [], 0)

  /** A call of `Allocate` or of `AllocateAligned`. */
  datatype Request = Request(bytes: nat, aligned: bool)

  function Tail(s: State): Range {
    Range(s.ptr, s.remaining)
  }

  /** How far an address is from the next multiple of 8. */
  function Slop(ptr: nat): (r: nat)
    ensures r < ALIGN && (ptr + r) % ALIGN == 0
  {
    if ptr % ALIGN == 0 then 0 else ALIGN - ptr % ALIGN
  }

  function Skip(s: State, q: Request): nat {
    if q.aligned then Slop(s.ptr) else 0
  }

  /** A `size_t`. */
  function Needed(s: State, q: Request): nat {
    if q.aligned then (q.bytes + Slop(s.ptr)) % TWO_64 else q.bytes
  }

  /** The size of the block that the request makes the arena allocate, or 0. */
  function BlockWanted(s: State, q: Request): nat {
    if Needed(s, q) <= s.remaining then 0 else if q.bytes > BLOCK_SIZE / 4 then q.bytes else BLOCK_SIZE
  }

  datatype Answer = Answer(state: State, result: nat)

  function WithBlock(s: State, block: Range): State {
    s.(blocks := s.blocks + [block], usage := (s.usage + block.size + POINTER_SIZE) % TWO_64)
  }

  function Serve(s: State, q: Request, base: nat): Answer {
    var wanted := BlockWanted(s, q);
    if wanted == 0 then
      Answer(s.(ptr := s.ptr + Needed(s, q), remaining := s.remaining - Needed(s, q)), s.ptr + Skip(s, q))
    else if q.bytes > BLOCK_SIZE / 4 then
      Answer(WithBlock(s, Range(base, wanted)), base)
    else
      Answer(WithBlock(s, Range(base, wanted)).(ptr := base + q.bytes, remaining := BLOCK_SIZE - q.bytes), base)
  }

  /** A request that fits into what is left takes no block. Another one of more than 1024 bytes gets a block of its own
      size, and the rest of the last block is kept; and for a smaller one there is a new block of 4096 bytes. */
  lemma BlocksMade(s: State, q: Request, base: nat)
    ensures var a := Serve(s, q, base);
      if Needed(s, q) <= s.remaining then
        a.state.blocks == s.blocks && a.state.usage == s.usage
        && a.state.ptr == s.ptr + Needed(s, q) && a.state.remaining == s.remaining - Needed(s, q)
      else if q.bytes > 1024 then
        a.state.blocks == s.blocks + [Range(base, q.bytes)] && a.result == base
        && a.state.usage == (s.usage + q.bytes + 8) % 0x1_0000_0000_0000_0000
        && a.state.ptr == s.ptr && a.state.remaining == s.remaining
      else
        a.state.blocks == s.blocks + [Range(base, 4096)] && a.result == base
        && a.state.usage == (s.usage + 4096 + 8) % 0x1_0000_0000_0000_0000
        && a.state.ptr == base + q.bytes && a.state.remaining == 4096 - q.bytes
  {
    hide Slop;
  }

  /** What an aligned request skips: up to the next multiple of 8, and no further. */
  lemma SlopIsLeast(ptr: nat, k: nat)
    ensures (ptr + Slop(ptr)) % 8 == 0 && Slop(ptr) < 8
    ensures (ptr + k) % 8 == 0 ==> Slop(ptr) <= k
  {
  }

  // ---- Safety ----

  ghost predicate Free(r: Range, blocks: seq<Range>) {
    && r.base > 0 && r.End() <= TWO_64
    && forall i :: 0 <= i < |blocks| ==> Apart(r, blocks[i])
  }

  ghost predicate Owned(r: Range, blocks: seq<Range>) {
    r.size == 0 || exists i :: 0 <= i < |blocks| && Inside(r, blocks[i])
  }

  /** The blocks do not overlap. */
  ghost predicate BlocksApart(blocks: seq<Range>) {
    && (forall i :: 0 <= i < |blocks| ==> blocks[i].base > 0 && blocks[i].End() <= TWO_64)
    && (forall i, j :: 0 <= i < j < |blocks| ==> Apart(blocks[i], blocks[j]))
  }

  /** Everything handed out lies in one block, apart from everything else handed out and from what is
      still to be handed out. */
  ghost predicate Safe(s: State, given: seq<Range>) {
    && BlocksApart(s.blocks) && Owned(Tail(s), s.blocks)
    && (forall k :: 0 <= k < |given| ==> Owned(given[k], s.blocks) && Apart(given[k], Tail(s)))
    && (forall j, k :: 0 <= j < k < |given| ==> Apart(given[j], given[k]))
  }

  /** The sum in `AllocateAligned` does not wrap around to a number that seems to fit. */
  predicate Fits(s: State, q: Request) {
    q.aligned ==> q.bytes + Slop(s.ptr) < TWO_64 || Needed(s, q) > s.remaining
  }

  /** If a block is wanted, `base` is where it can go. */
  ghost predicate CanGrow(s: State, q: Request, base: nat) {
    BlockWanted(s, q) > 0 ==> Free(Range(base, BlockWanted(s, q)), s.blocks)
  }

  lemma ApartWithin(r: Range, q: Range, p: Range)
    requires Inside(r, q) && Apart(q, p)
    ensures Apart(r, p) && Apart(p, r)
  {
  }

  lemma OwnedWithin(r: Range, q: Range, blocks: seq<Range>)
    requires Inside(r, q) && Owned(q, blocks)
    ensures Owned(r, blocks)
  {
    if q.size != 0 {
      var i :| 0 <= i < |blocks| && Inside(q, blocks[i]);
      assert Inside(r, blocks[i]);
    }
  }

  lemma OwnedStays(r: Range, blocks: seq<Range>, block: Range)
    requires Owned(r, blocks) && Free(block, blocks)
    ensures Owned(r, blocks + [block]) && Apart(r, block)
  {
    if r.size != 0 {
      var i :| 0 <= i < |blocks| && Inside(r, blocks[i]);
      assert (blocks + [block])[i] == blocks[i];
      ApartWithin(r, blocks[i], block);
    }
  }

  lemma ServedFromTail(s: State, given: seq<Range>, q: Request, base: nat)
    requires Safe(s, given) && BlockWanted(s, q) == 0 && Fits(s, q)
    ensures var a := Serve(s, q, base); Safe(a.state, given + [Range(a.result, q.bytes)])
  {
    hide Owned, Apart, BlocksApart, Slop;
    var a := Serve(s, q, base);
    var r := Range(a.result, q.bytes);
    assert Needed(s, q) == q.bytes + Skip(s, q) && BothInTail(s, a.state, r);
    TailSplit(s, a.state, r);
    OwnedWithin(r, Tail(s), s.blocks);
    OwnedWithin(Tail(a.state), Tail(s), s.blocks);
    forall k | 0 <= k < |given|
      ensures Apart(given[k], r) && Apart(given[k], Tail(a.state))
    {
      ApartFrom(given[k], Tail(s), r);
      ApartFrom(given[k], Tail(s), Tail(a.state));
    }
  }

  predicate BothInTail(s: State, after: State, r: Range) {
    && s.ptr <= r.base && r.End() == after.ptr && after.ptr + after.remaining == s.ptr + s.remaining
  }

  lemma TailSplit(s: State, after: State, r: Range)
    requires BothInTail(s, after, r)
    ensures Inside(r, Tail(s)) && Inside(Tail(after), Tail(s)) && Apart(r, Tail(after))
  {
  }

  lemma ApartFrom(p: Range, q: Range, r: Range)
    requires Apart(p, q) && Inside(r, q)
    ensures Apart(p, r)
  {
  }

  lemma ServedFromBlock(s: State, given: seq<Range>, q: Request, base: nat)
    requires Safe(s, given) && BlockWanted(s, q) > 0 && CanGrow(s, q, base)
    ensures var a := Serve(s, q, base); Safe(a.state, given + [Range(a.result, q.bytes)])
  {
    hide Owned, Apart, BlocksApart, Needed, Free;
    var a := Serve(s, q, base);
    var block, r := Range(base, BlockWanted(s, q)), Range(a.result, q.bytes);
    BlockAdded(s.blocks, block);
    OwnedStays(Tail(s), s.blocks, block);
    InNewBlock(r, s.blocks, block);
    if q.bytes > BLOCK_SIZE / 4 {
      SymmetricApart(Tail(s), r);
    } else {
      InNewBlock(Tail(a.state), s.blocks, block);
      FrontAndRest(r, Tail(a.state));
    }
    forall k | 0 <= k < |given|
      ensures Owned(given[k], a.state.blocks) && Apart(given[k], r) && Apart(given[k], Tail(a.state))
    {
      OwnedStays(given[k], s.blocks, block);
      ApartFrom(given[k], block, r);
      if q.bytes <= BLOCK_SIZE / 4 { ApartFrom(given[k], block, Tail(a.state)); }
    }
  }

  lemma BlockAdded(blocks: seq<Range>, block: Range)
    requires BlocksApart(blocks) && Free(block, blocks)
    ensures BlocksApart(blocks + [block])
  {
    forall i | 0 <= i < |blocks| ensures Apart(blocks[i], block) {
      SymmetricApart(block, blocks[i]);
    }
  }

  lemma SymmetricApart(p: Range, q: Range)
    requires Apart(p, q)
    ensures Apart(q, p)
  {
  }

  lemma InNewBlock(r: Range, blocks: seq<Range>, block: Range)
    requires Inside(r, block)
    ensures Owned(r, blocks + [block])
  {
    assert (blocks + [block])[|blocks|] == block;
  }

  lemma FrontAndRest(front: Range, rest: Range)
    requires front.End() == rest.base
    ensures Apart(front, rest)
  {
  }

  /** The bytes of an aligned request lie in a block exactly when its size did not wrap around. */
  lemma OwnedIffFits(s: State, given: seq<Range>, q: Request, base: nat)
    requires Safe(s, given) && CanGrow(s, q, base)
    ensures var a := Serve(s, q, base);
      Owned(Range(a.result, q.bytes), a.state.blocks) <==> Fits(s, q)
  {
    var a := Serve(s, q, base);
    var r := Range(a.result, q.bytes);
    if Fits(s, q) {
      if BlockWanted(s, q) == 0 {
        ServedFromTail(s, given, q, base);
      } else {
        ServedFromBlock(s, given, q, base);
      }
      assert (given + [r])[|given|] == r;
    } else {
      assert r.base + r.size >= TWO_64;
    }
  }

  // ---- Whole runs ----

  datatype Step = Step(request: Request, base: nat)

  /** The state after some requests, and the ranges they were given, in order. */
  datatype History = History(state: State, given: seq<Range>)

  function After(steps: seq<Step>): (h: History)
    ensures |h.given| == |steps|
  {
    if steps == [] then History(EMPTY, [])
    else
      var h, last := After(steps[..|steps| - 1]), steps[|steps| - 1];
      var a := Serve(h.state, last.request, last.base);
      History(a.state, h.given + [Range(a.result, last.request.bytes)])
  }

  ghost predicate Legal(steps: seq<Step>) {
    steps == [] ||
    (var before, last := steps[..|steps| - 1], steps[|steps| - 1];
     var s := After(before).state;
     Legal(before) && Fits(s, last.request) && CanGrow(s, last.request, last.base))
  }

  /** Every run is safe. */
  lemma {:induction false} RunsAreSafe(steps: seq<Step>)
    requires Legal(steps)
    ensures Safe(After(steps).state, After(steps).given)
  {
    hide Safe, Serve, Fits, CanGrow, BlockWanted;
    if steps == [] {
      EmptyIsSafe();
    } else {
      var before, last := steps[..|steps| - 1], steps[|steps| - 1];
      RunsAreSafe(before);
      var s := After(before).state;
      if BlockWanted(s, last.request) == 0 {
        ServedFromTail(s, After(before).given, last.request, last.base);
      } else {
        ServedFromBlock(s, After(before).given, last.request, last.base);
      }
    }
  }

  lemma EmptyIsSafe()
    ensures Safe(EMPTY, [])
  {
  }

  /** The assertion at the end of `AllocateAligned`: a multiple of 8, if new blocks are. */
  lemma AlignedIfBlocksAre(s: State, q: Request, base: nat)
    requires q.aligned && (BlockWanted(s, q) > 0 ==> base % ALIGN == 0)
    ensures Serve(s, q, base).result % ALIGN == 0
  {
    assert (s.ptr + Slop(s.ptr)) % ALIGN == 0;
  }

  lemma RunIsAligned(steps: seq<Step>, k: nat)
    requires k < |steps| && steps[k].request.aligned && steps[k].base % ALIGN == 0
    ensures After(steps).given[k].base % ALIGN == 0
  {
    GivenStays(steps, k);
    AlignedIfBlocksAre(After(steps[..k]).state, steps[k].request, steps[k].base);
  }

  /** Later requests do not change what was given. */
  lemma {:induction false} GivenStays(steps: seq<Step>, k: nat)
    requires k < |steps|
    ensures After(steps).given[k]
         == Range(Serve(After(steps[..k]).state, steps[k].request, steps[k].base).result, steps[k].request.bytes)
  {
    hide Serve;
    if k + 1 < |steps| {
      var before := steps[..|steps| - 1];
      GivenStays(before, k);
      assert before[..k] == steps[..k];
    }
  }

  /** The wrap is within reach: after one request for a byte, one for 2^64 - 7 aligned bytes is answered with
      the next multiple of 8, and no block holds what was asked for. */
  lemma WrappedRequest()
    ensures var steps := [Step(Request(1, false), 8)];
      var h, q := After(steps), Request(TWO_64 - 7, true);
      && Legal(steps) && h.given == [Range(8, 1)] && Safe(h.state, h.given)
      && !Fits(h.state, q) && BlockWanted(h.state, q) == 0 && Serve(h.state, q, 0).result == 16
      && !Owned(Range(16, q.bytes), h.state.blocks)
  {
    var steps := [Step(Request(1, false), 8)];
    var q := Request(TWO_64 - 7, true);
    assert steps[..0] == [] && Legal(steps[..0]);
    assert After(steps).state.ptr == 9 && Slop(9) == 7;
    RunsAreSafe(steps);
    OwnedIffFits(After(steps).state, After(steps).given, q, 0);
  }

  // ---- Space ----

  function Total(blocks: seq<Range>): nat {
    if blocks == [] then 0 else Total(blocks[..|blocks| - 1]) + blocks[|blocks| - 1].size
  }

  function Requested(steps: seq<Step>): nat {
    if steps == [] then 0 else Requested(steps[..|steps| - 1]) + steps[|steps| - 1].request.bytes
  }

  function AlignedRequests(steps: seq<Step>): nat {
    if steps == [] then 0
    else AlignedRequests(steps[..|steps| - 1]) + (if steps[|steps| - 1].request.aligned then 1 else 0)
  }

  lemma TotalOfMore(blocks: seq<Range>, block: Range)
    ensures Total(blocks + [block]) == Total(blocks) + block.size
  {
    assert (blocks + [block])[..|blocks|] == blocks;
  }

  /** What was requested pays for three quarters of the blocks; the part of the current block that is
      in use is paid for in full, and that block itself is on credit. */
  predicate Paid(s: State, requested: nat, aligned: nat) {
    && (s.ptr == 0 ==> s.remaining == 0) && s.remaining <= BLOCK_SIZE
    && 3 * Total(s.blocks) + (if s.ptr == 0 then 0 else BLOCK_SIZE - 4 * s.remaining) <= 4 * (requested + 7 * aligned)
  }

  lemma StepIsPaid(s: State, q: Request, base: nat, requested: nat, aligned: nat)
    requires Paid(s, requested, aligned) && Fits(s, q) && CanGrow(s, q, base)
    ensures Paid(Serve(s, q, base).state, requested + q.bytes, aligned + (if q.aligned then 1 else 0))
  {
    hide Total;
    TotalOfMore(s.blocks, Range(base, BlockWanted(s, q)));
    assert Needed(s, q) <= q.bytes + Skip(s, q);
  }

  /** All blocks together are at most a third larger than what was requested, counting seven bytes
      more for each aligned request, plus one block. */
  lemma {:induction false} SpaceBound(steps: seq<Step>)
    requires Legal(steps)
    ensures Paid(After(steps).state, Requested(steps), AlignedRequests(steps))
    ensures 3 * Total(After(steps).state.blocks)
         <= 4 * (Requested(steps) + 7 * AlignedRequests(steps)) + 3 * BLOCK_SIZE
  {
    hide Serve, Fits, CanGrow;
    if steps != [] {
      var before, last := steps[..|steps| - 1], steps[|steps| - 1];
      SpaceBound(before);
      StepIsPaid(After(before).state, last.request, last.base, Requested(before), AlignedRequests(before));
    }
  }

  predicate Counted(s: State) {
    s.usage == (Total(s.blocks) + POINTER_SIZE * |s.blocks|) % TWO_64
  }

  lemma NothingCounted()
    ensures Counted(EMPTY)
  {
  }

  /** `MemoryUsage` counts every block and a pointer to it, as a `size_t`. */
  lemma {:induction false} UsageIsExact(steps: seq<Step>)
    ensures Counted(After(steps).state)
  {
    hide Serve, Counted;
    if steps != [] {
      var before, last := steps[..|steps| - 1], steps[|steps| - 1];
      UsageIsExact(before);
      UsageStep(After(before).state, last.request, last.base);
    } else {
      NothingCounted();
    }
  }

  lemma UsageStep(s: State, q: Request, base: nat)
    requires Counted(s)
    ensures Counted(Serve(s, q, base).state)
  {
    hide BlockWanted, Needed, Slop, Total;
    TotalOfMore(s.blocks, Range(base, BlockWanted(s, q)));
  }

  // ---- The allocator ----

  class Arena {
    var allocPtr: nat
    var allocBytesRemaining: nat
    var blocks: seq<Range> // the source keeps the addresses, and the runtime the sizes
    var memoryUsage: nat
    ghost var given: seq<Range>

    ghost function Abstract(): State
      reads this
    {
      State(allocPtr, allocBytesRemaining, blocks, memoryUsage)
    }

    ghost predicate Valid()
      reads this
    {
      Safe(Abstract(), given) && Counted(Abstract())
    }

    constructor ()
      ensures Valid() && Abstract() == EMPTY && given == []
    {
      allocPtr, allocBytesRemaining, blocks, memoryUsage := 0, 0, [], 0;
      given := [];
    }

    method MemoryUsage() returns (r: nat)
      requires Valid()
      ensures r == (Total(blocks) + POINTER_SIZE * |blocks|) % TWO_64
    {
      r := memoryUsage;
    }

    method AllocateNewBlock(blockBytes: nat, base: nat) returns (result: nat)
      modifies this
      ensures Abstract() == WithBlock(old(Abstract()), Range(base, blockBytes)) && result == base
      ensures given == old(given)
    {
      result := base;
      blocks := blocks + [Range(base, blockBytes)];
      memoryUsage := (memoryUsage + blockBytes + POINTER_SIZE) % TWO_64;
    }

    method AllocateFallback(bytes: nat, base: nat) returns (result: nat)
      modifies this
      ensures result == base && given == old(given)
      ensures bytes > BLOCK_SIZE / 4 ==> Abstract() == WithBlock(old(Abstract()), Range(base, bytes))
      ensures bytes <= BLOCK_SIZE / 4 ==>
        Abstract() == WithBlock(old(Abstract()), Range(base, BLOCK_SIZE)).(ptr := base + bytes,
                                                                          remaining := BLOCK_SIZE - bytes)
    {
      if bytes > BLOCK_SIZE / 4 {
        result := AllocateNewBlock(bytes, base);
        return;
      }
      allocPtr := AllocateNewBlock(BLOCK_SIZE, base);
      allocBytesRemaining := BLOCK_SIZE;
      result := allocPtr;
      allocPtr := allocPtr + bytes;
      allocBytesRemaining := allocBytesRemaining - bytes;
    }

    method Allocate(bytes: nat, base: nat) returns (result: nat)
      requires Valid() && bytes > 0 && CanGrow(Abstract(), Request(bytes, false), base)
      modifies this
      ensures Valid() && given == old(given) + [Range(result, bytes)]
      ensures Answer(Abstract(), result) == Serve(old(Abstract()), Request(bytes, false), base)
    {
      hide Safe, Counted, Free;
      ghost var q := Request(bytes, false);
      ServeKeepsValid(Abstract(), given, q, base);
      given := given + [Range(Serve(Abstract(), q, base).result, bytes)];
      if bytes <= allocBytesRemaining {
        result := allocPtr;
        allocPtr := allocPtr + bytes;
        allocBytesRemaining := allocBytesRemaining - bytes;
      } else {
        result := AllocateFallback(bytes, base);
      }
    }

    /** A size so large that adding the slop wraps around voids the arena's guarantee (see
        `OwnedIffFits`). */
    method AllocateAligned(bytes: nat, base: nat) returns (result: nat)
      requires Valid() && CanGrow(Abstract(), Request(bytes, true), base)
      requires BlockWanted(Abstract(), Request(bytes, true)) > 0 ==> base % ALIGN == 0
      modifies this
      ensures old(Fits(Abstract(), Request(bytes, true))) ==> Valid() && given == old(given) + [Range(result, bytes)]
      ensures Answer(Abstract(), result) == Serve(old(Abstract()), Request(bytes, true), base)
      ensures result % ALIGN == 0
    {
      hide Safe, Counted, Free;
      ghost var q := Request(bytes, true);
      AlignedIfBlocksAre(Abstract(), q, base);
      if Fits(Abstract(), q) {
        ServeKeepsValid(Abstract(), given, q, base);
      }
      given := given + [Range(Serve(Abstract(), q, base).result, bytes)];
      var currentMod := allocPtr % ALIGN;
      var slop := if currentMod == 0 then 0 else ALIGN - currentMod;
      var needed := (bytes + slop) % TWO_64;
      if needed <= allocBytesRemaining {
        result := allocPtr + slop;
        allocPtr := allocPtr + needed;
        allocBytesRemaining := allocBytesRemaining - needed;
      } else {
        result := AllocateFallback(bytes, base);
      }
      assert result % ALIGN == 0;
    }
  }

  lemma ServeKeepsValid(s: State, given: seq<Range>, q: Request, base: nat)
    requires Safe(s, given) && Counted(s) && Fits(s, q) && CanGrow(s, q, base)
    ensures var a := Serve(s, q, base);
      Safe(a.state, given + [Range(a.result, q.bytes)]) && Counted(a.state)
  {
    hide Safe, Fits;
    UsageStep(s, q, base);
    if BlockWanted(s, q) == 0 {
      ServedFromTail(s, given, q, base);
    } else {
      ServedFromBlock(s, given, q, base);
    }
  }
}
