/** Where the allocator puts things, and what its totals count. */
module AllocatorAccounts {
  import opened Common
  import opened ChunkAllocator

  // ----- the size of a chunk -----

  ghost predicate PowerOfTwo(p: nat) {
    p == 1 || (0 < p && p % 2 == 0 && PowerOfTwo(p / 2))
  }

  /** The search finds the least power of two that is large enough. */
  lemma {:induction false} NextPowerIs(v: nat, r: nat)
    requires 0 < r && PowerOfTwo(r)
    ensures var p := NextPowerOfTwo(v, r); PowerOfTwo(p) && v <= p && (p == r || p < 2 * v)
    decreases v - r
  {
    if r < v {
      assert (2 * r) / 2 == r;
      NextPowerIs(v, 2 * r);
    }
  }

  /** A chunk is the least power of two that holds its header, the allocation at any alignment, and the
      least size of a chunk. */
  lemma ChunkSizeIs(size: nat, align: nat, minChunkSize: nat)
    requires 0 < align
    ensures var n := ChunkSize(size, align, minChunkSize);
      && PowerOfTwo(n) && size + 24 + align - 1 <= n && minChunkSize <= n
      && (n < 2 * (size + 24 + align - 1) || n < 2 * minChunkSize)
  {
    NextPowerIs(Max(size + HEADER_SIZE + align - 1, minChunkSize), 1);
  }

  // ----- places -----

  /** `x` is the first multiple of `align` from `y` on. */
  predicate FirstMultiple(x: nat, y: nat, align: nat)
    requires 0 < align
  {
    y <= x < y + align && x % align == 0
  }

  /** There is only one. */
  lemma FirstMultipleIs(x: nat, y: nat, align: nat)
    requires 0 < align
    ensures FirstMultiple(x, y, align) <==> x == AlignUp(y, align)
  {
    AlignIs(y, align);
    if FirstMultiple(x, y, align) {
      hide AlignUp;
      var z := AlignUp(y, align);
      var j, k := x / align, z / align;
      assert x == j * align && z == k * align;
      if j < k {
        MultiplesApart(j, k, align);
      } else if k < j {
        MultiplesApart(k, j, align);
      }
    }
  }

  /** An allocation fits the newest chunk if and only if it does at the first aligned place there. */
  lemma FitsIs(s: State, size: nat, align: nat, x: nat)
    requires s.chunks != [] && 0 < align && FirstMultiple(x, s.chunks[0].current, align)
    ensures Fits(s, size, align) <==> x + size <= s.chunks[0].end
  {
    FirstMultipleIs(x, s.chunks[0].current, align);
  }

  /** An allocation that fits goes to the first aligned place of the newest chunk. */
  lemma AllocIs(s: State, size: nat, align: nat, minChunkSize: nat, base: nat)
    requires 0 < align && Fits(s, size, align)
    ensures var t := Alloc(s, size, align, minChunkSize, base);
      var x := t.lastAlloc;
      && FirstMultiple(x, s.chunks[0].current, align)
      && t == State([s.chunks[0].(current := x + size)] + s.chunks[1..], x, s.totalUsed + size, s.fragmentation,
                    s.live + [Block(x, size, align)])
  {
    hide AlignUp, ChunkSize;
    FirstMultipleIs(AlignUp(s.chunks[0].current, align), s.chunks[0].current, align);
    var c := s.chunks[0].(current := AlignUp(s.chunks[0].current, align) + size);
    assert s.chunks[0 := c] == [c] + s.chunks[1..];
  }

  /** Any other goes to the first aligned place behind the header of a new chunk, which is the newest then;
      what was free in the one before is lost and counted. */
  lemma AllocNewIs(s: State, size: nat, align: nat, minChunkSize: nat, base: nat)
    requires 0 < align && !Fits(s, size, align)
    ensures var t := Alloc(s, size, align, minChunkSize, base);
      var x := t.lastAlloc;
      var left := if s.chunks == [] then 0 else s.chunks[0].end - s.chunks[0].current;
      && FirstMultiple(x, base + 24, align)
      && t == State([Chunk(base, x + size, base + ChunkSize(size, align, minChunkSize))] + s.chunks, x,
                    s.totalUsed + size, s.fragmentation + left, s.live + [Block(x, size, align)])
  {
    hide AlignUp, ChunkSize;
    var x := AlignUp(base + HEADER_SIZE, align);
    FirstMultipleIs(x, base + HEADER_SIZE, align);
    AlignTwice(base + HEADER_SIZE, align);
    var n := NewChunk(s, size, align, minChunkSize, base);
    assert n.chunks[0 := n.chunks[0].(current := x + size)] == [n.chunks[0].(current := x + size)] + s.chunks;
  }

  lemma AlignTwice(x: nat, align: nat)
    requires 0 < align
    ensures AlignUp(AlignUp(x, align), align) == AlignUp(x, align)
  {
    hide AlignUp;
    AlignUpBounds(x, align);
    AlignUpAligned(AlignUp(x, align), align);
  }

  /** The last allocation grows where it is if there is room, and else moves behind the header of a new
      chunk. */
  lemma GrowIs(s: State, add: nat, align: nat, minChunkSize: nat, base: nat)
    requires 0 < align && s.live != [] && s.chunks != []
    ensures var t, last := GrowLast(s, add, align, minChunkSize, base), s.live[|s.live| - 1];
      var x := t.lastAlloc;
      && t.totalUsed == s.totalUsed + add && |t.live| == |s.live| && t.live[..|s.live| - 1] == s.live[..|s.live| - 1]
      && if s.chunks[0].current + add <= s.chunks[0].end then
           && x == last.addr && t.live[|s.live| - 1] == last.(size := last.size + add)
           && t.fragmentation == s.fragmentation
           && t.chunks == [s.chunks[0].(current := s.chunks[0].current + add)] + s.chunks[1..]
         else
           var size := last.size + add;
           && FirstMultiple(x, base + 24, align) && t.live[|s.live| - 1] == Block(x, size, align)
           && t.fragmentation == s.fragmentation + (s.chunks[0].end - s.chunks[0].current)
           && t.chunks == [Chunk(base, x + size, base + ChunkSize(size, align, minChunkSize))] + s.chunks
  {
    hide AlignUp, ChunkSize;
    FirstMultipleIs(AlignUp(base + HEADER_SIZE, align), base + HEADER_SIZE, align);
    var t := GrowLast(s, add, align, minChunkSize, base);
    if Grows(s, add) {
      assert t.chunks == [t.chunks[0]] + s.chunks[1..];
    } else {
      assert t.chunks == [t.chunks[0]] + s.chunks;
    }
  }

  // ----- the totals -----

  ghost function Sizes(live: seq<Block>): nat {
    if live == [] then 0 else Sizes(live[..|live| - 1]) + live[|live| - 1].size
  }

  ghost function Unused(chunks: seq<Chunk>): int {
    if chunks == [] then 0 else chunks[0].end - chunks[0].current + Unused(chunks[1..])
  }

  /** The bytes used are those of the live allocations, and the bytes lost are those left free at the ends
      of all chunks but the newest. */
  ghost predicate Accounts(s: State) {
    s.totalUsed == Sizes(s.live) && s.fragmentation == if s.chunks == [] then 0 else Unused(s.chunks[1..])
  }

  lemma SizesNext(live: seq<Block>, b: Block)
    ensures Sizes(live + [b]) == Sizes(live) + b.size
  {
    assert (live + [b])[..|live|] == live;
  }

  lemma AllocAccounts(s: State, size: nat, align: nat, minChunkSize: nat, base: nat)
    requires 0 < align && Accounts(s)
    ensures Accounts(Alloc(s, size, align, minChunkSize, base))
  {
    hide Alloc, Fits, ChunkSize, FirstMultiple;
    var t := Alloc(s, size, align, minChunkSize, base);
    SizesNext(s.live, Block(t.lastAlloc, size, align));
    if Fits(s, size, align) {
      HasChunk(s, size, align);
      AllocIs(s, size, align, minChunkSize, base);
      assert t.chunks[1..] == s.chunks[1..];
    } else {
      AllocNewIs(s, size, align, minChunkSize, base);
      assert t.chunks[1..] == s.chunks;
    }
  }

  lemma HasChunk(s: State, size: nat, align: nat)
    requires 0 < align && Fits(s, size, align)
    ensures s.chunks != []
  {
  }

  lemma GrowAccounts(s: State, add: nat, align: nat, minChunkSize: nat, base: nat)
    requires 0 < align && s.live != [] && s.chunks != [] && Accounts(s)
    ensures Accounts(GrowLast(s, add, align, minChunkSize, base))
  {
    hide GrowLast, ChunkSize, FirstMultiple, Sizes;
    GrowIs(s, add, align, minChunkSize, base);
    var t, k := GrowLast(s, add, align, minChunkSize, base), |s.live| - 1;
    SizesNext(s.live[..k], s.live[k]);
    SizesNext(s.live[..k], t.live[k]);
    assert s.live == s.live[..k] + [s.live[k]] && t.live == s.live[..k] + [t.live[k]];
    if s.chunks[0].current + add <= s.chunks[0].end {
      assert t.chunks[1..] == s.chunks[1..];
    } else {
      assert t.chunks[1..] == s.chunks;
    }
  }

  ghost predicate RunAccounts(r: Run) {
    Accounts(r.s) && forall k :: 0 <= k < |r.marks| ==> Accounts(r.marks[k])
  }

  lemma StepAccounts(r: Run, op: Op, minChunkSize: nat)
    requires RunInv(r) && RunAccounts(r) && Allowed(r, op, minChunkSize)
    ensures RunAccounts(StepRun(r, op, minChunkSize))
  {
    hide Inv, Extends, Alloc, GrowLast, Fits, Grows, Fresh, Accounts, ResetTo;
    match op
    case Allocate(size, align, base) => AllocAccounts(r.s, size, align, minChunkSize, base);
    case Grow(add, align, base) =>
      InvChunks(r.s);
      GrowAccounts(r.s, add, align, minChunkSize, base);
    case TakeMark =>
    case ResetToMark(k) => EveryStepKeeps(r, op, minChunkSize);
  }

  /** The totals are right over every run. */
  lemma {:induction false} EveryRunAccounts(r: Run, ops: seq<Op>, minChunkSize: nat)
    requires RunInv(r) && RunAccounts(r)
    ensures RunAccounts(RunAll(r, ops, minChunkSize))
    decreases |ops|
  {
    hide RunInv, RunAccounts, Allowed, StepRun;
    if !(ops == [] || !Allowed(r, ops[0], minChunkSize)) {
      AllowedInv(r);
      EveryStepKeeps(r, ops[0], minChunkSize);
      StepAccounts(r, ops[0], minChunkSize);
      EveryRunAccounts(StepRun(r, ops[0], minChunkSize), ops[1..], minChunkSize);
    }
  }

  lemma AllowedInv(r: Run)
    requires RunInv(r)
    ensures Inv(r.s)
  {
  }

  /** A new allocator is a start for all of this. */
  lemma StartAccounts()
    ensures var r := Run(State([], NULL, 0, 0, []), []); RunInv(r) && RunAccounts(r)
  {
  }
}
