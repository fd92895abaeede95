/** The chunked allocator: allocations are carved from the newest chunk, the last one can grow, and marks
    let everything made since be given back at once. */
module ChunkAllocator {
  import opened Common

  /** The header of a chunk: a link and two pointers, of eight bytes each. */
  const HEADER_SIZE: nat := 24
  const MAX_ALLOC_SIZE: nat := 0x8000_0000
  const NULL: nat := 0

  datatype Chunk = Chunk(base: nat, current: nat, end: nat)

  /** An allocation that has not been given back. */
  datatype Block = Block(addr: nat, size: nat, align: nat)

  /** The chunks, newest first, and the live allocations, oldest first. */
  datatype State = State(chunks: seq<Chunk>, lastAlloc: nat, totalUsed: nat, fragmentation: int, live: seq<Block>)

  // ----- alignment -----

  ghost predicate Aligned(x: nat, align: nat) {
    exists k: nat :: x == k * align
  }

  lemma AlignUpBounds(x: nat, align: nat)
    requires 0 < align
    ensures x <= AlignUp(x, align) < x + align && Aligned(AlignUp(x, align), align)
  {
    var n := x + align - 1;
    assert n == n / align * align + n % align;
  }

  lemma AlignUpAligned(x: nat, align: nat)
    requires 0 < align && Aligned(x, align)
    ensures AlignUp(x, align) == x
  {
    var k: nat :| x == k * align;
    AlignUpBounds(x, align);
    var m := (x + align - 1) / align;
    if k < m {
      MultiplesApart(k, m, align);
    } else if m < k {
      MultiplesApart(m, k, align);
    }
  }

  /** pn_next_power_of_two, from `r` on. */
  function NextPowerOfTwo(v: nat, r: nat): (p: nat)
    requires 0 < r
    ensures v <= p && r <= p
    decreases v - r
  {
    if v <= r then r else NextPowerOfTwo(v, 2 * r)
  }

  function ChunkSize(size: nat, align: nat, minChunkSize: nat): (r: nat)
    requires 0 < align
    ensures size + HEADER_SIZE + align - 1 <= r
  {
    NextPowerOfTwo(Max(size + HEADER_SIZE + align - 1, minChunkSize), 1)
  }

  // ----- the invariant -----

  predicate Apart(a: nat, aEnd: nat, b: nat, bEnd: nat) {
    aEnd <= b || bEnd <= a
  }

  ghost predicate ChunksOk(chunks: seq<Chunk>) {
    && (forall i :: 0 <= i < |chunks| ==>
      NULL < chunks[i].base && chunks[i].base + HEADER_SIZE <= chunks[i].current <= chunks[i].end)
    && (forall i, j :: 0 <= i < j < |chunks| ==> Apart(chunks[i].base, chunks[i].end, chunks[j].base, chunks[j].end))
  }

  predicate Inside(b: Block, c: Chunk) {
    c.base + HEADER_SIZE <= b.addr && b.addr + b.size <= c.current
  }

  /** Two allocations share no byte; an empty one has none. */
  predicate Separate(b: Block, c: Block) {
    b.size == 0 || c.size == 0 || Apart(b.addr, b.addr + b.size, c.addr, c.addr + c.size)
  }

  /** Live allocations are inside a chunk, aligned, and pairwise share no byte. */
  ghost predicate LiveOk(s: State) {
    && ChunksOk(s.chunks)
    && (forall k :: 0 <= k < |s.live| ==> Aligned(s.live[k].addr, s.live[k].align))
    && (forall k :: 0 <= k < |s.live| ==> exists i :: 0 <= i < |s.chunks| && Inside(s.live[k], s.chunks[i]))
    && (forall j, k :: 0 <= j < k < |s.live| ==> Separate(s.live[j], s.live[k]))
  }

  /** The last allocation is the last thing in the newest chunk. */
  ghost predicate LastOk(s: State) {
    && (s.chunks == [] <==> s.live == [])
    && if s.live == [] then s.lastAlloc == NULL
       else
         var last := s.live[|s.live| - 1];
         s.lastAlloc == last.addr && Inside(last, s.chunks[0]) && last.addr + last.size == s.chunks[0].current
  }

  ghost predicate Inv(s: State) {
    LiveOk(s) && LastOk(s)
  }

  // ----- the operations -----

  /** A region the system's allocator may return: it overlaps nothing it has returned and not been given
      back. */
  ghost predicate Fresh(s: State, base: nat, size: nat) {
    NULL < base && forall i :: 0 <= i < |s.chunks| ==> Apart(base, base + size, s.chunks[i].base, s.chunks[i].end)
  }

  ghost function NewChunk(s: State, size: nat, align: nat, minChunkSize: nat, base: nat): (t: State)
    requires 0 < align
    ensures |t.chunks| == |s.chunks| + 1
  {
    var left := if s.chunks == [] then 0 else s.chunks[0].end - s.chunks[0].current;
    var chunk := Chunk(base, AlignUp(base + HEADER_SIZE, align), base + ChunkSize(size, align, minChunkSize));
    s.(chunks := [chunk] + s.chunks, fragmentation := s.fragmentation + left)
  }

  /** Whether an allocation fits the newest chunk. */
  predicate Fits(s: State, size: nat, align: nat)
    requires 0 < align
  {
    s.chunks != [] && AlignUp(s.chunks[0].current, align) + size <= s.chunks[0].end
  }

  /** Carve an allocation from the newest chunk. */
  ghost function Carve(s: State, size: nat, align: nat): State
    requires 0 < align && s.chunks != []
  {
    var addr := AlignUp(s.chunks[0].current, align);
    State(s.chunks[0 := s.chunks[0].(current := addr + size)], addr, s.totalUsed + size, s.fragmentation,
          s.live + [Block(addr, size, align)])
  }

  ghost function Alloc(s: State, size: nat, align: nat, minChunkSize: nat, base: nat): (t: State)
    requires 0 < align
    ensures |t.live| == |s.live| + 1
  {
    if Fits(s, size, align) then Carve(s, size, align)
    else Carve(NewChunk(s, size, align, minChunkSize, base), size, align)
  }

  /** Whether the last allocation can grow where it is. */
  predicate Grows(s: State, add: nat) {
    s.chunks != [] && s.chunks[0].current + add <= s.chunks[0].end
  }

  ghost function GrowLast(s: State, add: nat, align: nat, minChunkSize: nat, base: nat): State
    requires 0 < align && s.live != [] && s.chunks != []
  {
    var last := s.live[|s.live| - 1];
    var others := s.live[..|s.live| - 1];
    if Grows(s, add) then
      State(s.chunks[0 := s.chunks[0].(current := s.chunks[0].current + add)], last.addr, s.totalUsed + add,
            s.fragmentation, others + [last.(size := last.size + add)])
    else
      var n := NewChunk(s, last.size + add, align, minChunkSize, base);
      var addr := n.chunks[0].current;
      State(n.chunks[0 := n.chunks[0].(current := addr + last.size + add)], addr, s.totalUsed + add, n.fragmentation,
            others + [Block(addr, last.size + add, align)])
  }

  datatype Mark = Mark(current: nat, lastAlloc: nat, totalUsed: nat, fragmentation: int)

  function MarkOf(chunks: seq<Chunk>, lastAlloc: nat, totalUsed: nat, fragmentation: int): Mark {
    Mark(if chunks == [] then 0 else chunks[0].current, lastAlloc, totalUsed, fragmentation)
  }

  /** The chunks left when those before the one that holds `lastAlloc` are freed. */
  function Unwind(chunks: seq<Chunk>, lastAlloc: nat): seq<Chunk> {
    if chunks == [] then []
    else if chunks[0].base <= lastAlloc < chunks[0].end then chunks
    else Unwind(chunks[1..], lastAlloc)
  }

  function ResetChunks(chunks: seq<Chunk>, mark: Mark): seq<Chunk> {
    var left := Unwind(chunks, mark.lastAlloc);
    if left == [] then [] else left[0 := left[0].(current := mark.current)]
  }

  // ----- what allocating keeps -----

  /** A new chunk has room for what it was made for. */
  lemma NewChunkKeeps(s: State, size: nat, align: nat, minChunkSize: nat, base: nat)
    requires LiveOk(s) && 0 < align && Fresh(s, base, ChunkSize(size, align, minChunkSize))
    ensures var n := NewChunk(s, size, align, minChunkSize, base);
      && LiveOk(n) && n.chunks[0].current + size <= n.chunks[0].end && Aligned(n.chunks[0].current, align)
      && AlignUp(n.chunks[0].current, align) == n.chunks[0].current
  {
    hide Aligned, AlignUp, ChunkSize;
    var n := NewChunk(s, size, align, minChunkSize, base);
    AlignUpBounds(base + HEADER_SIZE, align);
    AlignUpAligned(AlignUp(base + HEADER_SIZE, align), align);
    forall k | 0 <= k < |n.live|
      ensures exists i :: 0 <= i < |n.chunks| && Inside(n.live[k], n.chunks[i])
    {
      var i :| 0 <= i < |s.chunks| && Inside(s.live[k], s.chunks[i]);
      assert Inside(n.live[k], n.chunks[i + 1]);
    }
    NewChunkChunks(s, size, align, minChunkSize, base);
    hide ChunksOk, Inside, Apart;
    assert LiveOk(n);
  }

  lemma NewChunkChunks(s: State, size: nat, align: nat, minChunkSize: nat, base: nat)
    requires ChunksOk(s.chunks) && 0 < align && Fresh(s, base, ChunkSize(size, align, minChunkSize))
    ensures var n := NewChunk(s, size, align, minChunkSize, base);
      ChunksOk(n.chunks) && n.chunks[0].current + size <= n.chunks[0].end
  {
    hide AlignUp, ChunkSize;
    var n := NewChunk(s, size, align, minChunkSize, base);
    AlignUpBounds(base + HEADER_SIZE, align);
    assert forall i :: 1 <= i < |n.chunks| ==> n.chunks[i] == s.chunks[i - 1];
  }

  /** A block above everything carved from the newest chunk so far is apart from all live ones. */
  lemma AboveIsApart(s: State, addr: nat, size: nat, k: nat)
    requires LiveOk(s) && s.chunks != [] && s.chunks[0].current <= addr && addr + size <= s.chunks[0].end
    requires k < |s.live|
    ensures Apart(s.live[k].addr, s.live[k].addr + s.live[k].size, addr, addr + size)
  {
    hide Aligned;
    var i :| 0 <= i < |s.chunks| && Inside(s.live[k], s.chunks[i]);
  }

  lemma CarveKeeps(s: State, size: nat, align: nat)
    requires LiveOk(s) && 0 < align && Fits(s, size, align)
    ensures Inv(Carve(s, size, align))
  {
    hide Aligned, AlignUp;
    var t := Carve(s, size, align);
    var addr := AlignUp(s.chunks[0].current, align);
    AlignUpBounds(s.chunks[0].current, align);
    forall k | 0 <= k < |s.live|
      ensures Apart(s.live[k].addr, s.live[k].addr + s.live[k].size, addr, addr + size)
      ensures exists i :: 0 <= i < |t.chunks| && Inside(t.live[k], t.chunks[i])
    {
      AboveIsApart(s, addr, size, k);
      var i :| 0 <= i < |s.chunks| && Inside(s.live[k], s.chunks[i]);
      assert Inside(t.live[k], t.chunks[i]);
    }
    assert Inside(t.live[|s.live|], t.chunks[0]);
  }

  /** An allocation is aligned, inside a chunk, and shares no byte with a live one. */
  lemma AllocKeeps(s: State, size: nat, align: nat, minChunkSize: nat, base: nat)
    requires Inv(s) && 0 < align
    requires !Fits(s, size, align) ==> Fresh(s, base, ChunkSize(size, align, minChunkSize))
    ensures Inv(Alloc(s, size, align, minChunkSize, base))
  {
    hide LiveOk, LastOk, Aligned, AlignUp;
    if Fits(s, size, align) {
      CarveKeeps(s, size, align);
    } else {
      NewChunkKeeps(s, size, align, minChunkSize, base);
      CarveKeeps(NewChunk(s, size, align, minChunkSize, base), size, align);
    }
  }

  /** Without the last allocation, the others are as they were. */
  ghost function WithoutLast(s: State): State
    requires s.live != []
  {
    s.(live := s.live[..|s.live| - 1])
  }

  lemma GrowKeeps(s: State, add: nat, align: nat, minChunkSize: nat, base: nat)
    requires Inv(s) && s.live != [] && 0 < add && 0 < align && Grows(s, add)
    ensures Inv(GrowLast(s, add, align, minChunkSize, base))
  {
    hide Inv, Aligned, Inside, Apart, Separate, ChunksOk;
    var t := GrowLast(s, add, align, minChunkSize, base);
    GrownChunksOk(s, add);
    forall k | 0 <= k < |t.live|
      ensures Aligned(t.live[k].addr, t.live[k].align)
      ensures exists i :: 0 <= i < |t.chunks| && Inside(t.live[k], t.chunks[i])
    {
      GrownIsInside(s, add, align, minChunkSize, base, k);
    }
    forall j, k | 0 <= j < k < |t.live|
      ensures Separate(t.live[j], t.live[k])
    {
      GrownIsSeparate(s, add, j);
      UnchangedSeparate(s, j, k);
    }
    GrownLastOk(s, add, align, minChunkSize, base);
    assert LiveOk(t);
    LiveAndLast(t);
  }

  lemma LiveAndLast(s: State)
    requires LiveOk(s) && LastOk(s)
    ensures Inv(s)
  {
  }

  lemma UnchangedSeparate(s: State, j: nat, k: nat)
    requires Inv(s) && j < k < |s.live|
    ensures Separate(s.live[j], s.live[k])
  {
    hide Aligned, Inside, ChunksOk, Separate;
  }

  lemma GrownChunksOk(s: State, add: nat)
    requires Inv(s) && Grows(s, add)
    ensures ChunksOk(s.chunks[0 := s.chunks[0].(current := s.chunks[0].current + add)])
  {
    hide Aligned, Inside;
  }

  lemma GrownIsInside(s: State, add: nat, align: nat, minChunkSize: nat, base: nat, k: nat)
    requires Inv(s) && s.live != [] && 0 < align && Grows(s, add) && k < |s.live|
    ensures var t := GrowLast(s, add, align, minChunkSize, base);
      Aligned(t.live[k].addr, t.live[k].align)
      && exists i :: 0 <= i < |t.chunks| && Inside(t.live[k], t.chunks[i])
  {
    hide Aligned, ChunksOk, Apart;
    var t := GrowLast(s, add, align, minChunkSize, base);
    var i :| 0 <= i < |s.chunks| && Inside(s.live[k], s.chunks[i]);
    assert Inside(t.live[k], t.chunks[if k == |s.live| - 1 then 0 else i]);
  }

  lemma GrownLastOk(s: State, add: nat, align: nat, minChunkSize: nat, base: nat)
    requires Inv(s) && s.live != [] && 0 < align && Grows(s, add)
    ensures LastOk(GrowLast(s, add, align, minChunkSize, base))
  {
    hide LiveOk;
  }

  lemma GrownIsSeparate(s: State, add: nat, k: nat)
    requires Inv(s) && k < |s.live| - 1 && Grows(s, add)
    ensures var last := s.live[|s.live| - 1]; Separate(s.live[k], last.(size := last.size + add))
  {
    hide Aligned;
    AboveIsApart(s, s.chunks[0].current, add, k);
    BelowCurrent(s, k);
  }

  /** What is in the newest chunk is below its fill; the rest is outside the chunk. */
  lemma BelowCurrent(s: State, k: nat)
    requires Inv(s) && k < |s.live|
    ensures var b, c := s.live[k], s.chunks[0]; b.addr + b.size <= c.current || c.end <= b.addr
  {
    hide Aligned;
    var i :| 0 <= i < |s.chunks| && Inside(s.live[k], s.chunks[i]);
  }

  lemma MoveKeeps(s: State, add: nat, align: nat, minChunkSize: nat, base: nat)
    requires Inv(s) && s.live != [] && 0 < add && 0 < align && !Grows(s, add)
    requires Fresh(s, base, ChunkSize(s.live[|s.live| - 1].size + add, align, minChunkSize))
    ensures Inv(GrowLast(s, add, align, minChunkSize, base))
  {
    hide *;
    var u := WithoutLast(s);
    var size := s.live[|s.live| - 1].size + add;
    WithoutLastOk(s);
    FreshWithoutLast(s, base, ChunkSize(size, align, minChunkSize));
    NewChunkKeeps(u, size, align, minChunkSize, base);
    var n := NewChunk(u, size, align, minChunkSize, base);
    FitsWhenAligned(n, size, align);
    CarveKeeps(n, size, align);
    MoveIsCarve(s, add, align, minChunkSize, base);
    TotalsDoNotMatter(Carve(n, size, align), s.totalUsed + add);
  }

  lemma WithoutLastOk(s: State)
    requires Inv(s) && s.live != []
    ensures LiveOk(WithoutLast(s)) && s.chunks != []
  {
  }

  lemma FreshWithoutLast(s: State, base: nat, size: nat)
    requires s.live != [] && Fresh(s, base, size)
    ensures Fresh(WithoutLast(s), base, size)
  {
  }

  lemma FitsWhenAligned(n: State, size: nat, align: nat)
    requires 0 < align && n.chunks != [] && AlignUp(n.chunks[0].current, align) == n.chunks[0].current
    requires n.chunks[0].current + size <= n.chunks[0].end
    ensures Fits(n, size, align)
  {
  }

  lemma MoveIsCarve(s: State, add: nat, align: nat, minChunkSize: nat, base: nat)
    requires s.live != [] && s.chunks != [] && 0 < align && !Grows(s, add)
    requires var size := s.live[|s.live| - 1].size + add;
      var n := NewChunk(WithoutLast(s), size, align, minChunkSize, base);
      AlignUp(n.chunks[0].current, align) == n.chunks[0].current
    ensures var size := s.live[|s.live| - 1].size + add;
      var n := NewChunk(WithoutLast(s), size, align, minChunkSize, base);
      n.chunks != []
      && GrowLast(s, add, align, minChunkSize, base) == Carve(n, size, align).(totalUsed := s.totalUsed + add)
  {
    hide AlignUp, ChunkSize;
  }

  lemma TotalsDoNotMatter(s: State, total: nat)
    requires Inv(s)
    ensures Inv(s.(totalUsed := total))
  {
    hide Aligned;
  }

  // ----- marks -----

  /** `s` came about since `a`: newer chunks in front, and at most more carved from the newest chunk of `a`. */
  ghost predicate Extends(a: State, s: State) {
    a.chunks == []
    || (var n := |s.chunks| - |a.chunks|;
        && 0 <= n && s.chunks[n + 1..] == a.chunks[1..]
        && s.chunks[n].base == a.chunks[0].base && s.chunks[n].end == a.chunks[0].end
        && a.chunks[0].current <= s.chunks[n].current)
  }

  lemma {:induction false} UnwindTo(chunks: seq<Chunk>, x: nat, n: nat)
    requires n <= |chunks|
    requires forall i :: 0 <= i < n ==> !(chunks[i].base <= x < chunks[i].end)
    requires n < |chunks| ==> chunks[n].base <= x < chunks[n].end
    ensures Unwind(chunks, x) == chunks[n..]
  {
    if 0 < n {
      UnwindTo(chunks[1..], x, n - 1);
      assert chunks[1..][n - 1..] == chunks[n..];
    }
  }

  /** The state a reset to the mark taken in `a` leaves. */
  ghost function ResetTo(a: State, s: State): State {
    var mark := MarkOf(a.chunks, a.lastAlloc, a.totalUsed, a.fragmentation);
    State(ResetChunks(s.chunks, mark), mark.lastAlloc, mark.totalUsed, mark.fragmentation, a.live)
  }

  /** The last allocation of a mark starts before the end of its chunk. */
  predicate Findable(a: State) {
    a.chunks == [] || a.lastAlloc < a.chunks[0].end
  }

  /** It does unless that allocation is empty and at the very end. */
  lemma FindableUnlessEmptyAtEnd(a: State)
    requires Inv(a)
    ensures Findable(a) <==> a.live == [] || a.live[|a.live| - 1].size > 0 || a.chunks[0].current < a.chunks[0].end
  {
    hide Aligned;
  }

  lemma LastIsInHead(s: State)
    requires Inv(s)
    ensures ChunksOk(s.chunks) && (s.chunks == [] <==> s.live == []) && (s.chunks == [] ==> s.lastAlloc == NULL)
    ensures s.chunks != [] ==> s.chunks[0].base <= s.lastAlloc <= s.chunks[0].current
  {
    hide LiveOk;
    assert LiveOk(s);
    LiveChunks(s);
  }

  lemma LiveChunks(s: State)
    requires LiveOk(s)
    ensures ChunksOk(s.chunks)
  {
  }

  /** A reset restores exactly the state of the mark, whatever was allocated or grown since. */
  lemma ResetRestores(a: State, s: State)
    requires Inv(a) && Inv(s) && Extends(a, s) && Findable(a)
    ensures ResetTo(a, s) == a
  {
    hide Inv, ChunksOk;
    LastIsInHead(a);
    LastIsInHead(s);
    var n := |s.chunks| - |a.chunks|;
    if a.chunks == [] {
      NullIsInNone(s.chunks);
      UnwindTo(s.chunks, a.lastAlloc, |s.chunks|);
    } else {
      OneChunkHolds(s.chunks, a.lastAlloc, n);
      UnwindTo(s.chunks, a.lastAlloc, n);
      SameBehind(a.chunks, s.chunks, n);
    }
  }

  lemma NullIsInNone(chunks: seq<Chunk>)
    requires ChunksOk(chunks)
    ensures forall i :: 0 <= i < |chunks| ==> !(chunks[i].base <= NULL < chunks[i].end)
  {
  }

  lemma OneChunkHolds(chunks: seq<Chunk>, x: nat, n: nat)
    requires ChunksOk(chunks) && n < |chunks| && chunks[n].base <= x < chunks[n].end
    ensures forall i :: 0 <= i < n ==> !(chunks[i].base <= x < chunks[i].end)
  {
  }

  lemma SameBehind(a: seq<Chunk>, s: seq<Chunk>, n: nat)
    requires a != [] && |s| == n + |a| && s[n + 1..] == a[1..] && s[n].base == a[0].base && s[n].end == a[0].end
    ensures s[n..][0 := s[n].(current := a[0].current)] == a
  {
    assert s[n..] == [s[n]] + s[n + 1..];
    assert a == [a[0]] + a[1..];
  }

  /** Which chunk a mark is in is decided by the address of its last allocation, so a reset restores the
      chunks exactly if that address is before the chunk's end; an empty allocation at the very end of a
      chunk loses the chunk. */
  lemma ResetExact(a: State, s: State)
    requires ChunksOk(s.chunks) && Extends(a, s) && a.chunks != []
    requires a.chunks[0].base <= a.lastAlloc <= a.chunks[0].end
    ensures ResetTo(a, s).chunks == a.chunks <==> a.lastAlloc < a.chunks[0].end
  {
    var n := |s.chunks| - |a.chunks|;
    assert s.chunks[n..] == [s.chunks[n]] + s.chunks[n + 1..];
    assert a.chunks == [a.chunks[0]] + a.chunks[1..];
    if a.lastAlloc < a.chunks[0].end {
      UnwindTo(s.chunks, a.lastAlloc, n);
    } else {
      UnwindHolds(s.chunks, a.lastAlloc);
    }
  }

  /** So in every state of the allocator a reset works exactly for marks that can be found. */
  lemma ResetWorksIff(a: State, s: State)
    requires Inv(a) && Inv(s) && Extends(a, s)
    ensures ResetTo(a, s) == a <==> Findable(a)
  {
    hide Aligned, Extends;
    if Findable(a) {
      ResetRestores(a, s);
    } else {
      ResetExact(a, s);
    }
  }

  /** A chunk that is full, an empty allocation, a mark, and a reset to it: the chunk is freed. */
  lemma EmptyAtEndLosesChunk()
    ensures var s := State([Chunk(1000, 2024, 2024)], 1024, 1000, 0, [Block(1024, 1000, 8)]);
      var t := Alloc(s, 0, 8, 1024, 4096);
      Inv(s) && Inv(t) && ResetTo(t, t).chunks == []
  {
    var s := State([Chunk(1000, 2024, 2024)], 1024, 1000, 0, [Block(1024, 1000, 8)]);
    var t := Alloc(s, 0, 8, 1024, 4096);
    assert 1024 == 128 * 8;
    assert Inside(s.live[0], s.chunks[0]);
    AllocKeeps(s, 0, 8, 1024, 4096);
    assert t.lastAlloc == 2024 && t.chunks == [Chunk(1000, 2024, 2024)];
    assert Unwind(t.chunks[1..], 2024) == [];
  }

  lemma {:induction false} UnwindHolds(chunks: seq<Chunk>, x: nat)
    ensures var u := Unwind(chunks, x);
      |u| <= |chunks| && u == chunks[|chunks| - |u|..] && (u != [] ==> u[0].base <= x < u[0].end)
  {
    if chunks != [] && !(chunks[0].base <= x < chunks[0].end) {
      UnwindHolds(chunks[1..], x);
    }
  }

  // ----- runs of nested marks and resets -----

  datatype Op =
    | Allocate(size: nat, align: nat, base: nat)
    | Grow(add: nat, align: nat, base: nat)
    | TakeMark
    | ResetToMark(k: nat)

  /** The allocator, and the states at the marks that can still be used, outermost first. */
  datatype Run = Run(s: State, marks: seq<State>)

  ghost predicate Allowed(r: Run, op: Op, minChunkSize: nat) {
    match op
    case Allocate(size, align, base) =>
      0 < align && (!Fits(r.s, size, align) ==> Fresh(r.s, base, ChunkSize(size, align, minChunkSize)))
    case Grow(add, align, base) =>
      r.s.live != [] && 0 < add && 0 < align
      && (!Grows(r.s, add) ==> Fresh(r.s, base, ChunkSize(r.s.live[|r.s.live| - 1].size + add, align, minChunkSize)))
    case TakeMark => true
    case ResetToMark(k) => k < |r.marks| && Findable(r.marks[k])
  }

  ghost function StepRun(r: Run, op: Op, minChunkSize: nat): Run
    requires Inv(r.s) && Allowed(r, op, minChunkSize)
  {
    match op
    case Allocate(size, align, base) => r.(s := Alloc(r.s, size, align, minChunkSize, base))
    case Grow(add, align, base) => r.(s := GrowLast(r.s, add, align, minChunkSize, base))
    case TakeMark => r.(marks := r.marks + [r.s])
    case ResetToMark(k) => Run(ResetTo(r.marks[k], r.s), r.marks[..k + 1])
  }

  ghost predicate RunInv(r: Run) {
    && Inv(r.s)
    && (forall k :: 0 <= k < |r.marks| ==> Inv(r.marks[k]) && Extends(r.marks[k], r.s))
    && (forall j, k :: 0 <= j < k < |r.marks| ==> Extends(r.marks[j], r.marks[k]))
  }

  lemma AllocExtends(a: State, s: State, size: nat, align: nat, minChunkSize: nat, base: nat)
    requires Extends(a, s) && ChunksOk(s.chunks) && 0 < align
    ensures Extends(a, Alloc(s, size, align, minChunkSize, base))
  {
    if Fits(s, size, align) {
      AlignUpBounds(s.chunks[0].current, align);
    }
  }

  lemma ReallocExtends(a: State, s: State, add: nat, align: nat, minChunkSize: nat, base: nat)
    requires Extends(a, s) && s.live != [] && s.chunks != [] && 0 < align
    ensures Extends(a, GrowLast(s, add, align, minChunkSize, base))
  {
    hide AlignUp, ChunkSize;
  }

  /** Every run keeps the allocator's invariant, and each reset leaves exactly the state of its mark. */
  lemma EveryStepKeeps(r: Run, op: Op, minChunkSize: nat)
    requires RunInv(r) && Allowed(r, op, minChunkSize)
    ensures RunInv(StepRun(r, op, minChunkSize))
    ensures op.ResetToMark? ==> StepRun(r, op, minChunkSize).s == r.marks[op.k]
  {
    hide LiveOk, LastOk, Extends, Alloc, GrowLast, Fits, Grows, Fresh;
    match op
    case Allocate(size, align, base) =>
      AllocKeeps(r.s, size, align, minChunkSize, base);
      forall k | 0 <= k < |r.marks|
        ensures Extends(r.marks[k], Alloc(r.s, size, align, minChunkSize, base))
      {
        InvChunks(r.s);
        AllocExtends(r.marks[k], r.s, size, align, minChunkSize, base);
      }
    case Grow(add, align, base) =>
      InvChunks(r.s);
      if Grows(r.s, add) {
        GrowKeeps(r.s, add, align, minChunkSize, base);
      } else {
        MoveKeeps(r.s, add, align, minChunkSize, base);
      }
      forall k | 0 <= k < |r.marks|
        ensures Extends(r.marks[k], GrowLast(r.s, add, align, minChunkSize, base))
      {
        ReallocExtends(r.marks[k], r.s, add, align, minChunkSize, base);
      }
    case TakeMark => ExtendsItself(r.s);
    case ResetToMark(k) =>
      ResetRestores(r.marks[k], r.s);
      ExtendsItself(r.marks[k]);
  }

  lemma InvChunks(s: State)
    requires Inv(s)
    ensures ChunksOk(s.chunks) && (s.live != [] ==> s.chunks != [])
  {
  }

  lemma ExtendsItself(s: State)
    ensures Extends(s, s)
  {
  }

  ghost function RunAll(r: Run, ops: seq<Op>, minChunkSize: nat): Run
    requires RunInv(r)
    decreases |ops|
  {
    if ops == [] || !Allowed(r, ops[0], minChunkSize) then r
    else
      EveryStepKeeps(r, ops[0], minChunkSize);
      RunAll(StepRun(r, ops[0], minChunkSize), ops[1..], minChunkSize)
  }

  /** Over every run of allocations, growths, marks and nested resets. */
  lemma {:induction false} EveryRunKeeps(r: Run, ops: seq<Op>, minChunkSize: nat)
    requires RunInv(r)
    ensures RunInv(RunAll(r, ops, minChunkSize))
    decreases |ops|
  {
    hide Inv, Allowed, StepRun;
    if !(ops == [] || !Allowed(r, ops[0], minChunkSize)) {
      EveryStepKeeps(r, ops[0], minChunkSize);
      EveryRunKeeps(StepRun(r, ops[0], minChunkSize), ops[1..], minChunkSize);
    }
  }

  // ----- the allocator's own fields -----

  type Memory = nat -> int

  /** The `n` bytes at `from`. */
  ghost function Bytes(m: Memory, from: nat, n: nat): seq<int> {
    seq(n, i requires 0 <= i => m(from + i))
  }

  ghost predicate SameOutside(m: Memory, k: Memory, from: nat, end: nat) {
    forall x: nat :: x < from || end <= x ==> k(x) == m(x)
  }

  ghost predicate Kept(m: Memory, k: Memory, b: Block) {
    Bytes(k, b.addr, b.size) == Bytes(m, b.addr, b.size)
  }

  lemma NothingChanged(m: Memory)
    ensures forall b :: Kept(m, m, b)
  {
  }

  /** A change inside the last allocation changes no other one. */
  lemma OthersKept(s: State, m: Memory, k: Memory)
    requires Inv(s) && s.live != [] && s.chunks != [] && 0 < s.live[|s.live| - 1].size
    requires SameOutside(m, k, s.lastAlloc, s.chunks[0].current)
    ensures forall j: nat :: j < |s.live| - 1 ==> Kept(m, k, s.live[j])
  {
    hide Aligned;
    forall j: nat | j < |s.live| - 1
      ensures Kept(m, k, s.live[j])
    {
      assert Separate(s.live[j], s.live[|s.live| - 1]);
      assert Bytes(k, s.live[j].addr, s.live[j].size) == Bytes(m, s.live[j].addr, s.live[j].size);
    }
  }

  /** What the system's allocator returns is a parameter, `base`, that is only used when a chunk is made. */
  class Allocator {
    const minChunkSize: nat
    var chunks: seq<Chunk>
    var lastAlloc: nat
    var totalUsed: nat
    var internalFragmentation: int
    /** The bytes of memory. */
    var mem: Memory
    ghost var live: seq<Block>

    ghost function Abs(): State
      reads this
    {
      State(chunks, lastAlloc, totalUsed, internalFragmentation, live)
    }

    constructor (minChunkSize: nat, mem: Memory)
      ensures Abs() == State([], NULL, 0, 0, []) && Inv(Abs()) && this.minChunkSize == minChunkSize && this.mem == mem
    {
      this.minChunkSize, this.mem := minChunkSize, mem;
      chunks, lastAlloc, totalUsed, internalFragmentation := [], NULL, 0, 0;
      live := [];
    }

    method AddChunk(size: nat, align: nat, base: nat)
      requires 0 < align
      modifies `chunks, `internalFragmentation
      ensures Abs() == NewChunk(old(Abs()), size, align, minChunkSize, base)
    {
      if chunks != [] {
        internalFragmentation := internalFragmentation + (chunks[0].end - chunks[0].current);
      }
      var chunkSize := 1;
      while chunkSize < Max(size + HEADER_SIZE + align - 1, minChunkSize)
        invariant 0 < chunkSize
        invariant NextPowerOfTwo(Max(size + HEADER_SIZE + align - 1, minChunkSize), chunkSize) ==
          ChunkSize(size, align, minChunkSize)
        decreases Max(size + HEADER_SIZE + align - 1, minChunkSize) - chunkSize
      {
        chunkSize := 2 * chunkSize;
      }
      chunks := [Chunk(base, AlignUp(base + HEADER_SIZE, align), base + chunkSize)] + chunks;
    }

    /** pn_allocator_alloc */
    method Allocate(size: nat, align: nat, base: nat) returns (ret: nat)
      requires Inv(Abs()) && 0 < align
      requires !Fits(Abs(), size, align) ==>
        size < MAX_ALLOC_SIZE && Fresh(Abs(), base, ChunkSize(size, align, minChunkSize))
      modifies `chunks, `lastAlloc, `totalUsed, `internalFragmentation, `live
      ensures Inv(Abs()) && Abs() == Alloc(old(Abs()), size, align, minChunkSize, base)
      ensures live == old(live) + [Block(ret, size, align)]
    {
      hide Inv, Fresh, ChunkSize, AlignUp;
      AllocKeeps(Abs(), size, align, minChunkSize, base);
      ghost var s := Abs();
      if chunks == [] || chunks[0].end < AlignUp(chunks[0].current, align) + size {
        AddChunk(size, align, base);
      }
      ret := AlignUp(chunks[0].current, align);
      chunks := chunks[0 := chunks[0].(current := ret + size)];
      lastAlloc := ret;
      totalUsed := totalUsed + size;
      live := live + [Block(ret, size, align)];
    }

    lemma LastInHead()
      requires Inv(Abs()) && lastAlloc != NULL
      ensures live != [] && chunks != [] && live[|live| - 1].addr == lastAlloc
      ensures chunks[0].current == lastAlloc + live[|live| - 1].size
    {
    }

    /** memcpy between regions that do not overlap. */
    method CopyBytes(to: nat, from: nat, n: nat)
      modifies `mem
      ensures Bytes(mem, to, n) == Bytes(old(mem), from, n) && SameOutside(old(mem), mem, to, to + n)
    {
      var m := mem;
      mem := (x: nat) => if to <= x < to + n then m(from + (x - to)) else m(x);
    }

    /** The last allocation does not fit its chunk any more: copy it to a new one. */
    method MoveLast(p: nat, add: nat, align: nat, base: nat) returns (q: nat, ret: nat)
      requires live != [] && chunks != [] && p == lastAlloc && chunks[0].current == p + live[|live| - 1].size
      requires 0 < align && !Grows(Abs(), add)
      modifies `chunks, `lastAlloc, `totalUsed, `internalFragmentation, `live, `mem
      ensures Abs() == GrowLast(old(Abs()), add, align, minChunkSize, base)
      ensures q == lastAlloc && ret == q + old(live[|live| - 1].size)
      ensures Bytes(mem, q, old(live[|live| - 1].size)) == Bytes(old(mem), p, old(live[|live| - 1].size))
      ensures chunks != [] && SameOutside(old(mem), mem, q, chunks[0].current)
    {
      hide ChunkSize, AlignUp, Bytes;
      var oldSize := chunks[0].current - p;
      AddChunk(oldSize + add, align, base);
      q := chunks[0].current;
      CopyBytes(q, p, oldSize);
      ret := q + oldSize;
      chunks := chunks[0 := chunks[0].(current := ret + add)];
      lastAlloc := q;
      totalUsed := totalUsed + add;
      live := live[..|live| - 1] + [Block(q, oldSize + add, align)];
    }

    /** pn_allocator_realloc_add: grow the allocation at `p`, which must be the last one, or make one.
        Growing by nothing fails. The bytes it had are kept, also when it moves, no byte outside it
        changes, and so every other live allocation keeps its place and its bytes. */
    method ReallocAdd(p: nat, add: nat, align: nat, base: nat) returns (ok: bool, q: nat, ret: nat)
      requires Inv(Abs()) && 0 < align
      requires p == NULL && !Fits(Abs(), add, align) ==>
        add < MAX_ALLOC_SIZE && Fresh(Abs(), base, ChunkSize(add, align, minChunkSize))
      requires p != NULL && p == lastAlloc && live != [] && 0 < add && !Grows(Abs(), add) ==>
        (live[|live| - 1].size + add < MAX_ALLOC_SIZE
         && Fresh(Abs(), base, ChunkSize(live[|live| - 1].size + add, align, minChunkSize)))
      modifies this
      ensures Inv(Abs())
      ensures ok <==> p == NULL || (p == old(lastAlloc) && 0 < add)
      ensures !ok ==> Abs() == old(Abs()) && mem == old(mem)
      ensures p == NULL ==>
        Abs() == Alloc(old(Abs()), add, align, minChunkSize, base) && q == ret == lastAlloc && mem == old(mem)
      ensures ok && p != NULL ==>
        (old(live) != [] && old(chunks) != [] && Abs() == GrowLast(old(Abs()), add, align, minChunkSize, base)
         && q == lastAlloc && ret == q + old(live[|live| - 1].size)
         && Bytes(mem, q, old(live[|live| - 1].size)) == Bytes(old(mem), p, old(live[|live| - 1].size))
         && chunks != [] && SameOutside(old(mem), mem, q, chunks[0].current))
      ensures forall k: nat :: k < |old(live)| && (k < |old(live)| - 1 || !ok || p == NULL) ==>
        Kept(old(mem), mem, old(live)[k]) && k < |live| && live[k] == old(live)[k]
    {
      hide Kept, Inv, Alloc, Fits, Fresh, ChunkSize, AlignUp, Bytes;
      q, ret := p, p;
      if p == NULL {
        ret := Allocate(add, align, base);
        AllocIsLast(old(Abs()), add, align, base);
        NothingChanged(mem);
        return true, ret, ret;
      }
      NothingChanged(mem);
      if p != lastAlloc {
        return false, p, p;
      }
      LastInHead();
      if chunks[0].current + add <= chunks[0].current {
        return false, p, p;
      }
      ok := true;
      if chunks[0].end < chunks[0].current + add {
        MoveKeeps(Abs(), add, align, minChunkSize, base);
        q, ret := MoveLast(p, add, align, base);
        OthersKept(Abs(), old(mem), mem);
        assert live[..|live| - 1] == old(live)[..|live| - 1];
      } else {
        GrowKeeps(Abs(), add, align, minChunkSize, base);
        ret := chunks[0].current;
        chunks := chunks[0 := chunks[0].(current := ret + add)];
        totalUsed := totalUsed + add;
        live := live[..|live| - 1] + [live[|live| - 1].(size := live[|live| - 1].size + add)];
      }
    }

    lemma AllocIsLast(s: State, size: nat, align: nat, base: nat)
      requires 0 < align
      ensures var t := Alloc(s, size, align, minChunkSize, base); t.live[|t.live| - 1].addr == t.lastAlloc
    {
    }

    /** pn_allocator_last_alloc_size */
    method LastAllocSize() returns (size: nat)
      requires Inv(Abs())
      ensures size == if live == [] then 0 else live[|live| - 1].size
    {
      hide Aligned;
      size := if chunks == [] then 0 else chunks[0].current - lastAlloc;
    }

    /** pn_allocator_mark */
    method TakeMark() returns (mark: Mark)
      ensures mark == MarkOf(chunks, lastAlloc, totalUsed, internalFragmentation)
    {
      mark := MarkOf(chunks, lastAlloc, totalUsed, internalFragmentation);
    }

    /** pn_allocator_reset_to_mark, for the mark taken in state `a`. */
    method ResetToMark(mark: Mark, ghost a: State)
      requires mark == MarkOf(a.chunks, a.lastAlloc, a.totalUsed, a.fragmentation)
      modifies this
      ensures Abs() == ResetTo(a, old(Abs())) && mem == old(mem)
      ensures Inv(a) && Inv(old(Abs())) && Extends(a, old(Abs())) && Findable(a) ==> Inv(Abs()) && Abs() == a
    {
      hide Inv, Extends, Findable;
      if Inv(a) && Inv(Abs()) && Extends(a, Abs()) && Findable(a) {
        ResetRestores(a, Abs());
      }
      var chunk := chunks;
      while chunk != [] && !(chunk[0].base <= mark.lastAlloc < chunk[0].end)
        invariant Unwind(chunk, mark.lastAlloc) == Unwind(old(chunks), mark.lastAlloc)
        decreases |chunk|
      {
        chunk := chunk[1..];
      }
      if chunk != [] {
        chunk := chunk[0 := chunk[0].(current := mark.current)];
      }
      chunks := chunk;
      lastAlloc := mark.lastAlloc;
      totalUsed := mark.totalUsed;
      internalFragmentation := mark.fragmentation;
      live := a.live;
    }
  }
}
