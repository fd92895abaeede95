/** The page heap and the main thread's stack, which grow towards each other in one address space. */
module PageHeap {
  import opened Common

  const PAGESIZE: nat := 4096
  const GUARD_SIZE: nat := 1024
  const TWO_TO_THE_32: nat := 0x1_0000_0000

  /** What is fixed when the executor starts. */
  datatype Layout = Layout(size: nat, heapStart: nat)

  /** The page bitset, the end of the heap, and the stack tops of the main thread's frames, the current
      frame last and the sentinel frame first. */
  datatype State = State(mapped: seq<bool>, heapEnd: nat, tops: seq<nat>)

  datatype MmapResult = Mapped(addr: nat) | NotAnonymous | OutOfBounds | OutOfHeap

  function PageDown(x: nat): (r: nat)
    ensures r <= x < r + PAGESIZE && r % PAGESIZE == 0
  {
    AlignDown(x, PAGESIZE)
  }

  function PageUp(x: nat): (r: nat)
    ensures x <= r < x + PAGESIZE && r % PAGESIZE == 0
  {
    AlignUp(x, PAGESIZE)
  }

  /** Addresses and sizes are computed in 32 bits. */
  function Wrap(x: nat): (r: nat)
    ensures r < TWO_TO_THE_32
  {
    x % TWO_TO_THE_32
  }

  /** The pages mmap looks for. */
  function PagesFor(len: nat): nat {
    Wrap(PageUp(len)) / PAGESIZE
  }

  /** They hold `len` bytes unless the length wraps when it is rounded up; then there are none. */
  lemma PagesForExact(len: nat)
    requires len <= UINT32_MAX
    ensures len <= PagesFor(len) * 4096 <==> len <= 0xffff_f000
    ensures PagesFor(len) == if len <= 0xffff_f000 then (len + 4095) / 4096 else 0
    ensures Wrap(PageUp(len)) == PagesFor(len) * PAGESIZE
  {
  }

  /** The pages from the one `addr` is in that munmap goes over. */
  function SpanOf(addr: nat, len: nat): nat {
    Wrap(PageUp(addr + len) - PageDown(addr)) / PAGESIZE
  }

  ghost predicate LayoutOk(l: Layout) {
    l.size % PAGESIZE == 0 && l.heapStart % PAGESIZE == 0 && GUARD_SIZE <= l.heapStart <= l.size < TWO_TO_THE_32
  }

  /** Pages below the heap are mapped, pages above it are not, and the heap ends below every frame of the
      main thread's stack. */
  ghost predicate Inv(l: Layout, s: State) {
    && LayoutOk(l)
    && |s.mapped| * PAGESIZE == l.size
    && s.heapEnd % PAGESIZE == 0 && l.heapStart <= s.heapEnd
    && (forall i :: 0 <= i < l.heapStart / PAGESIZE ==> i < |s.mapped| && s.mapped[i])
    && (forall i :: s.heapEnd / PAGESIZE <= i < |s.mapped| ==> !s.mapped[i])
    && 0 < |s.tops|
    && (forall k :: 0 <= k < |s.tops| ==> s.heapEnd <= s.tops[k] <= l.size)
    && (forall j, k :: 0 <= j < k < |s.tops| ==> s.tops[k] <= s.tops[j])
  }

  // ----- finding room -----

  /** `n` pages from `p` on are unmapped. */
  ghost predicate Free(mapped: seq<bool>, p: nat, n: nat) {
    p + n <= |mapped| && forall i :: p <= i < p + n ==> !mapped[i]
  }

  /** The lowest place for `n` pages below page `last`, from page `p` on. No place is found for none. */
  ghost function LowestRun(mapped: seq<bool>, p: nat, last: nat, n: nat): (r: Option<nat>)
    decreases last - p
  {
    if n == 0 || last < p + n then None
    else if Free(mapped, p, n) then Some(p)
    else LowestRun(mapped, p + 1, last, n)
  }

  lemma {:induction false} LowestRunIsLowest(mapped: seq<bool>, p: nat, last: nat, n: nat)
    ensures match LowestRun(mapped, p, last, n)
      case Some(q) => p <= q && q + n <= last && 0 < n && Free(mapped, q, n)
        && (forall r: nat :: p <= r < q ==> !Free(mapped, r, n))
      case None => n == 0 || forall r: nat :: p <= r && r + n <= last ==> !Free(mapped, r, n)
    decreases last - p
  {
    if !(n == 0 || last < p + n || Free(mapped, p, n)) {
      LowestRunIsLowest(mapped, p + 1, last, n);
    }
  }

  ghost function SetPages(mapped: seq<bool>, from: nat, n: nat, value: bool): (r: seq<bool>)
    ensures |r| == |mapped|
    ensures forall i :: 0 <= i < |mapped| ==> r[i] == if from <= i < from + n then value else mapped[i]
  {
    seq(|mapped|, i requires 0 <= i < |mapped| => if from <= i < from + n then value else mapped[i])
  }

  // ----- the operations -----

  /** mmap of `len` bytes of anonymous memory. */
  ghost function MmapStep(l: Layout, s: State, len: nat): (State, MmapResult)
    requires 0 < |s.tops|
  {
    var n := PagesFor(len);
    match LowestRun(s.mapped, l.heapStart / PAGESIZE, s.heapEnd / PAGESIZE, n)
    case Some(p) => (s.(mapped := SetPages(s.mapped, p, n, true)), Mapped(p * PAGESIZE))
    case None =>
      var end := s.heapEnd + Wrap(PageUp(len));
      if s.heapEnd < GUARD_SIZE || l.size < end then (s, OutOfBounds)
      else if s.tops[|s.tops| - 1] < end then (s, OutOfHeap)
      else (s.(mapped := SetPages(s.mapped, s.heapEnd / PAGESIZE, n, true), heapEnd := end), Mapped(s.heapEnd))
  }

  /** munmap of the pages of `len` bytes at `addr`, as far as they lie in the heap. */
  ghost function MunmapStep(l: Layout, s: State, addr: nat, len: nat): State {
    var begin := Max(addr / PAGESIZE, l.heapStart / PAGESIZE);
    var end := Min(addr / PAGESIZE + SpanOf(addr, len), s.heapEnd / PAGESIZE);
    if begin <= end then s.(mapped := SetPages(s.mapped, begin, end - begin, false)) else s
  }

  /** The stack top after an alloca of `size` bytes, a 32-bit number that stands for a signed one. */
  function TopAfter(top: nat, size: nat, align: nat): nat
    requires size <= UINT32_MAX && 0 < align
  {
    AlignDown(Wrap(top + TWO_TO_THE_32 - size), align)
  }

  /** alloca on the main thread's stack; running into the heap is fatal. */
  ghost function AllocaStep(s: State, size: nat, align: nat): Option<State>
    requires 0 < |s.tops| && size <= UINT32_MAX && 0 < align
  {
    var top := TopAfter(s.tops[|s.tops| - 1], size, align);
    if top < s.heapEnd then None else Some(s.(tops := s.tops[|s.tops| - 1 := top]))
  }

  ghost function CallStep(s: State): State
    requires 0 < |s.tops|
  {
    s.(tops := s.tops + [s.tops[|s.tops| - 1]])
  }

  ghost function ReturnStep(s: State): State
    requires 0 < |s.tops|
  {
    s.(tops := s.tops[..|s.tops| - 1])
  }

  // ----- what each operation keeps -----

  /** A successful mapping of `n` pages at `addr`: they were unmapped, they are mapped now, and no other
      page changes. It is the lowest free run in the heap if there is one, and otherwise the heap grows by
      exactly those pages. */
  ghost predicate HandsOut(l: Layout, s: State, t: State, addr: nat, n: nat) {
    var p := addr / PAGESIZE;
    && addr == p * PAGESIZE
    && Free(s.mapped, p, n) && t.mapped == SetPages(s.mapped, p, n, true) && t.tops == s.tops
    && (forall q: nat :: l.heapStart / PAGESIZE <= q && q + n <= s.heapEnd / PAGESIZE ==>
          Free(s.mapped, q, n) && 0 < n ==> p <= q && t.heapEnd == s.heapEnd)
    && (if t.heapEnd == s.heapEnd then l.heapStart <= addr && addr + n * PAGESIZE <= s.heapEnd
        else addr == s.heapEnd && t.heapEnd == s.heapEnd + n * PAGESIZE)
  }

  lemma ReuseHandsOut(l: Layout, s: State, p: nat, n: nat)
    requires Inv(l, s) && LowestRun(s.mapped, l.heapStart / PAGESIZE, s.heapEnd / PAGESIZE, n) == Some(p)
    ensures HandsOut(l, s, s.(mapped := SetPages(s.mapped, p, n, true)), p * PAGESIZE, n)
    ensures Inv(l, s.(mapped := SetPages(s.mapped, p, n, true)))
  {
    LowestRunIsLowest(s.mapped, l.heapStart / PAGESIZE, s.heapEnd / PAGESIZE, n);
    assert (p * PAGESIZE) / PAGESIZE == p;
  }

  lemma GrowHandsOut(l: Layout, s: State, n: nat)
    requires Inv(l, s) && LowestRun(s.mapped, l.heapStart / PAGESIZE, s.heapEnd / PAGESIZE, n) == None
    requires s.heapEnd + n * PAGESIZE <= l.size && s.heapEnd + n * PAGESIZE <= s.tops[|s.tops| - 1]
    ensures var mapped := SetPages(s.mapped, s.heapEnd / PAGESIZE, n, true);
      var t := s.(mapped := mapped, heapEnd := s.heapEnd + n * PAGESIZE);
      HandsOut(l, s, t, s.heapEnd, n) && Inv(l, t)
  {
    LowestRunIsLowest(s.mapped, l.heapStart / PAGESIZE, s.heapEnd / PAGESIZE, n);
    var t := s.(mapped := SetPages(s.mapped, s.heapEnd / PAGESIZE, n, true), heapEnd := s.heapEnd + n * PAGESIZE);
    assert t.heapEnd / PAGESIZE == s.heapEnd / PAGESIZE + n && t.heapEnd % PAGESIZE == 0;
    assert Free(s.mapped, s.heapEnd / PAGESIZE, n);
    assert HandsOut(l, s, t, s.heapEnd, n);
  }

  lemma MmapMaps(l: Layout, s: State, len: nat)
    requires Inv(l, s) && len <= UINT32_MAX
    ensures var (t, r) := MmapStep(l, s, len);
      && Inv(l, t) && !r.NotAnonymous?
      && if r.Mapped? then HandsOut(l, s, t, r.addr, PagesFor(len)) else t == s
  {
    PagesForExact(len);
    hide PagesFor, Inv, HandsOut;
    var n := PagesFor(len);
    var (t, r) := MmapStep(l, s, len);
    match LowestRun(s.mapped, l.heapStart / PAGESIZE, s.heapEnd / PAGESIZE, n)
    case Some(p) => ReuseHandsOut(l, s, p, n);
    case None =>
      if r.Mapped? {
        GrowHandsOut(l, s, n);
      }
  }

  /** There are that many free pages in a row inside the heap. */
  ghost predicate HasRun(l: Layout, s: State, n: nat) {
    exists q: nat ::
      0 < n && l.heapStart / PAGESIZE <= q && q + n <= s.heapEnd / PAGESIZE && Free(s.mapped, q, n)
  }

  /** A mapping succeeds if and only if there is a free run in the heap or the heap can grow by its pages
      without passing the stack top; it is out of bounds if it would leave the memory, and else out of
      heap. */
  lemma MmapSucceedsIff(l: Layout, s: State, len: nat)
    requires Inv(l, s) && len <= UINT32_MAX
    ensures var r, n, top := MmapStep(l, s, len).1, PagesFor(len), s.tops[|s.tops| - 1];
      && (r.Mapped? <==> HasRun(l, s, n) || s.heapEnd + n * PAGESIZE <= top)
      && (r.OutOfBounds? <==> !HasRun(l, s, n) && l.size < s.heapEnd + n * PAGESIZE)
      && (r.OutOfHeap? <==> !HasRun(l, s, n) && top < s.heapEnd + n * PAGESIZE <= l.size)
  {
    PagesForExact(len);
    LowestRunIsLowest(s.mapped, l.heapStart / PAGESIZE, s.heapEnd / PAGESIZE, PagesFor(len));
    hide PagesFor, Wrap, PageUp, LowestRun, Free;
  }

  /** A page that munmap touches. */
  predicate Unmaps(l: Layout, heapEnd: nat, addr: nat, len: nat, i: nat) {
    && l.heapStart / PAGESIZE <= i < heapEnd / PAGESIZE
    && addr / PAGESIZE <= i < addr / PAGESIZE + SpanOf(addr, len)
  }

  /** munmap clears exactly the pages it touches, none of them outside the heap. */
  lemma MunmapUnmaps(l: Layout, s: State, addr: nat, len: nat)
    requires Inv(l, s)
    ensures var t := MunmapStep(l, s, addr, len);
      && Inv(l, t) && t.heapEnd == s.heapEnd && t.tops == s.tops
      && forall i :: 0 <= i < |s.mapped| ==> t.mapped[i] == (s.mapped[i] && !Unmaps(l, s.heapEnd, addr, len, i))
  {
    hide SpanOf;
  }

  /** A page of the heap that holds one of `len` bytes at `addr`. */
  predicate Meets(l: Layout, heapEnd: nat, addr: nat, len: nat, i: nat) {
    && l.heapStart / PAGESIZE <= i < heapEnd / PAGESIZE
    && 0 < len && i * PAGESIZE < addr + len && addr < (i + 1) * PAGESIZE
  }

  lemma SpanExact(addr: nat, len: nat)
    requires addr <= UINT32_MAX && len <= UINT32_MAX
    ensures addr % PAGESIZE + len <= TWO_TO_THE_32 - PAGESIZE ==>
      addr / PAGESIZE + SpanOf(addr, len) == PageUp(addr + len) / PAGESIZE
    ensures addr % PAGESIZE + len > TWO_TO_THE_32 - PAGESIZE ==>
      SpanOf(addr, len) == if addr % PAGESIZE + len <= TWO_TO_THE_32 then 0 else 1
  {
  }

  /** The pages munmap touches are those of the heap that meet the bytes it is given, but for two cases: it
      is given no bytes at an address inside a heap page, and clears that page; or so many that their
      number wraps when it is rounded up to pages, and leaves pages of the heap mapped. */
  lemma UnmapsExactly(l: Layout, heapEnd: nat, addr: nat, len: nat)
    requires LayoutOk(l) && l.heapStart <= heapEnd <= l.size && heapEnd % PAGESIZE == 0
    requires addr <= UINT32_MAX && len <= UINT32_MAX
    ensures (forall i: nat :: Unmaps(l, heapEnd, addr, len, i) <==> Meets(l, heapEnd, addr, len, i)) <==>
      && (0 < len || addr % PAGESIZE == 0 || addr < l.heapStart || heapEnd <= addr)
      && (addr % PAGESIZE + len <= TWO_TO_THE_32 - PAGESIZE
          || heapEnd / PAGESIZE <= Max(l.heapStart / PAGESIZE, addr / PAGESIZE + SpanOf(addr, len)))
  {
    SpanExact(addr, len);
    hide SpanOf;
    if addr % PAGESIZE + len > TWO_TO_THE_32 - PAGESIZE {
      var i := Max(l.heapStart / PAGESIZE, addr / PAGESIZE + SpanOf(addr, len));
      if i < heapEnd / PAGESIZE {
        assert Meets(l, heapEnd, addr, len, i) && !Unmaps(l, heapEnd, addr, len, i);
      }
    } else {
      var i := addr / PAGESIZE;
      assert len == 0 && addr % PAGESIZE != 0 && l.heapStart <= addr < heapEnd ==> Unmaps(l, heapEnd, addr, len, i);
    }
  }

  /** The block an alloca makes lies between the heap and everything already on the stack if and only if
      its size, as an unsigned number, is at most the stack top. */
  lemma AllocaKeeps(l: Layout, s: State, size: nat, align: nat)
    requires Inv(l, s) && size <= UINT32_MAX && 0 < align
    ensures match AllocaStep(s, size, align)
      case None => TopAfter(s.tops[|s.tops| - 1], size, align) < s.heapEnd
      case Some(t) =>
        var was, now := s.tops[|s.tops| - 1], t.tops[|t.tops| - 1];
        && |t.tops| == |s.tops| && s.heapEnd <= now
        && (now + size <= was <==> size <= was)
        && (Inv(l, t) <==> now <= Ceiling(l, s)) && (size <= was ==> Inv(l, t))
  {
    hide Inv, TopAfter, AlignDown, Ceiling;
    TopsBelow(l, s);
    var was := s.tops[|s.tops| - 1];
    TopExact(was, size, align);
    if s.heapEnd <= TopAfter(was, size, align) {
      TopsExact(l, s, TopAfter(was, size, align));
    }
  }

  lemma TopsBelow(l: Layout, s: State)
    requires Inv(l, s)
    ensures 0 < |s.tops| && s.tops[|s.tops| - 1] <= Ceiling(l, s) < TWO_TO_THE_32
  {
  }

  /** Moving the current frame's stack top keeps the order of the frames if it stays below the caller's. */
  lemma TopsExact(l: Layout, s: State, now: nat)
    requires Inv(l, s) && s.heapEnd <= now
    ensures Inv(l, s.(tops := s.tops[|s.tops| - 1 := now])) <==> now <= Ceiling(l, s)
  {
    var t := s.(tops := s.tops[|s.tops| - 1 := now]);
    assert t.tops[|t.tops| - 1] == now;
    if 1 < |s.tops| {
      assert t.tops[|t.tops| - 2] == s.tops[|s.tops| - 2];
    }
  }

  /** The new stack top is the last multiple of the alignment up to the old one less the size, which wraps
      if the size is more; the alloca is fatal if and only if that is below the heap's end. */
  lemma AllocaIs(s: State, size: nat, align: nat)
    requires 0 < |s.tops| && s.tops[|s.tops| - 1] < TWO_TO_THE_32 && size <= UINT32_MAX && 0 < align
    ensures var was := s.tops[|s.tops| - 1];
      var room := if size <= was then was - size else was + 0x1_0000_0000 - size;
      exists now: nat ::
        && now <= room < now + align && now % align == 0
        && AllocaStep(s, size, align) ==
             if now < s.heapEnd then None else Some(s.(tops := s.tops[..|s.tops| - 1] + [now]))
  {
    var was := s.tops[|s.tops| - 1];
    var room := if size <= was then was - size else was + 0x1_0000_0000 - size;
    TopExact(was, size, align);
    AlignIs(room, align);
    var now := TopAfter(was, size, align);
    hide TopAfter, AlignDown;
    assert s.tops[|s.tops| - 1 := now] == s.tops[..|s.tops| - 1] + [now];
  }

  /** Returning undoes a call and whatever the called frame took from the stack. */
  lemma ReturnUndoesCall(s: State, now: nat)
    requires 0 < |s.tops|
    ensures var t := CallStep(s);
      && |t.tops| == |s.tops| + 1 && t.tops[|s.tops|] == s.tops[|s.tops| - 1]
      && ReturnStep(t.(tops := t.tops[|s.tops| := now])) == s
  {
  }

  /** The stack top of the calling frame. */
  function Ceiling(l: Layout, s: State): nat {
    if 1 < |s.tops| then s.tops[|s.tops| - 2] else l.size
  }

  lemma TopExact(top: nat, size: nat, align: nat)
    requires top < TWO_TO_THE_32 && size <= UINT32_MAX && 0 < align
    ensures size <= top ==> TopAfter(top, size, align) == AlignDown(top - size, align)
    ensures size <= top ==> TopAfter(top, size, align) <= top - size
  {
    hide AlignDown;
  }

  // ----- whole runs -----

  datatype Op = Mmap(len: nat, anonymous: bool) | Munmap(addr: nat, len: nat)
    | Alloca(size: nat, align: nat) | Call | Return

  /** The arguments have 32 bits, there is a frame to return from, and when mmap has to move the end of the
      heap, adding to it does not wrap. */
  ghost predicate Fits(l: Layout, s: State, op: Op) {
    && 0 < |s.tops|
    && match op
       case Mmap(len, _) => len <= UINT32_MAX && (Reuses(l, s, len) || s.heapEnd + Wrap(PageUp(len)) < TWO_TO_THE_32)
       case Munmap(addr, len) => addr <= UINT32_MAX && len <= UINT32_MAX
       case Alloca(size, align) => size <= UINT32_MAX && 0 < align
       case Call => true
       case Return => 1 < |s.tops|
  }

  ghost predicate Reuses(l: Layout, s: State, len: nat) {
    LowestRun(s.mapped, l.heapStart / PAGESIZE, s.heapEnd / PAGESIZE, PagesFor(len)).Some?
  }

  /** One operation; nothing follows one that is fatal. */
  ghost function Step(l: Layout, s: State, op: Op): Option<State>
    requires Fits(l, s, op)
  {
    match op
    case Mmap(len, anonymous) =>
      if !anonymous then Some(s)
      else
        var (t, r) := MmapStep(l, s, len);
        if r.Mapped? then Some(t) else None
    case Munmap(addr, len) => Some(MunmapStep(l, s, addr, len))
    case Alloca(size, align) => AllocaStep(s, size, align)
    case Call => Some(CallStep(s))
    case Return => Some(ReturnStep(s))
  }

  ghost function Run(l: Layout, s: State, ops: seq<Op>): Option<State>
    decreases |ops|
  {
    if ops == [] then Some(s)
    else if !Fits(l, s, ops[0]) then None
    else
      var t := Step(l, s, ops[0]);
      if t.None? then None else Run(l, t.value, ops[1..])
  }

  ghost function Initial(l: Layout): State {
    State(SetPages(seq(l.size / PAGESIZE, _ => false), 0, l.heapStart / PAGESIZE, true), l.heapStart, [l.size])
  }

  /** An alloca leaves the stack top below that of the calling frame. */
  ghost predicate InFrame(l: Layout, s: State, op: Op) {
    op.Alloca? && 0 < |s.tops| && op.size <= UINT32_MAX && 0 < op.align ==>
      TopAfter(s.tops[|s.tops| - 1], op.size, op.align) <= Ceiling(l, s)
  }

  /** Every alloca of the run does. */
  ghost predicate Descends(l: Layout, s: State, ops: seq<Op>)
    decreases |ops|
  {
    ops != [] && Fits(l, s, ops[0]) && Step(l, s, ops[0]).Some? ==>
      InFrame(l, s, ops[0]) && Descends(l, Step(l, s, ops[0]).value, ops[1..])
  }

  lemma StepKeeps(l: Layout, s: State, op: Op)
    requires Inv(l, s) && Fits(l, s, op) && Step(l, s, op).Some?
    ensures Inv(l, Step(l, s, op).value) <==> InFrame(l, s, op)
  {
    match op
    case Mmap(len, anonymous) => MmapMaps(l, s, len);
    case Munmap(addr, len) => MunmapUnmaps(l, s, addr, len);
    case Alloca(size, align) => AllocaKeeps(l, s, size, align);
    case Call =>
    case Return =>
  }

  lemma InitialInv(l: Layout)
    requires LayoutOk(l)
    ensures Inv(l, Initial(l)) && Initial(l).heapEnd == l.heapStart && Initial(l).tops == [l.size]
  {
  }

  /** The heap and the stack are in order after every step of the run. */
  ghost predicate AlwaysInv(l: Layout, s: State, ops: seq<Op>)
    decreases |ops|
  {
    Inv(l, s)
    && (ops != [] && Fits(l, s, ops[0]) && Step(l, s, ops[0]).Some? ==>
          AlwaysInv(l, Step(l, s, ops[0]).value, ops[1..]))
  }

  lemma {:induction false} AlwaysDescends(l: Layout, s: State, ops: seq<Op>)
    requires Inv(l, s)
    ensures AlwaysInv(l, s, ops) <==> Descends(l, s, ops)
    decreases |ops|
  {
    hide Inv, InFrame, Step, Fits;
    if ops != [] && Fits(l, s, ops[0]) && Step(l, s, ops[0]).Some? {
      StepKeeps(l, s, ops[0]);
      if InFrame(l, s, ops[0]) {
        AlwaysDescends(l, Step(l, s, ops[0]).value, ops[1..]);
      }
    }
  }

  lemma {:induction false} RunKeeps(l: Layout, s: State, ops: seq<Op>)
    requires Inv(l, s) && Descends(l, s, ops) && Run(l, s, ops).Some?
    ensures Inv(l, Run(l, s, ops).value)
    decreases |ops|
  {
    hide Inv, InFrame, Step, Fits;
    if ops != [] {
      StepKeeps(l, s, ops[0]);
      RunKeeps(l, Step(l, s, ops[0]).value, ops[1..]);
    }
  }

  /** Over every run of mappings, unmappings, stack allocations, calls and returns in which no alloca leaves
      its frame: pages below the heap stay mapped, pages at or above its end are unmapped, and it never
      passes the stack top of any frame. */
  lemma EveryRunSeparates(l: Layout, ops: seq<Op>)
    requires LayoutOk(l) && Descends(l, Initial(l), ops) && Run(l, Initial(l), ops).Some?
    ensures var t := Run(l, Initial(l), ops).value;
      && (forall i :: 0 <= i < l.heapStart / PAGESIZE ==> i < |t.mapped| && t.mapped[i])
      && (forall i :: t.heapEnd / PAGESIZE <= i < |t.mapped| ==> !t.mapped[i])
      && (forall k :: 0 <= k < |t.tops| ==> l.heapStart <= t.heapEnd <= t.tops[k])
  {
    hide Run, Descends;
    InitialInv(l);
    RunKeeps(l, Initial(l), ops);
  }

  const SMALL: Layout := Layout(8 * PAGESIZE, PAGESIZE)

  /** A frame whose alloca has a negative size gets a stack top above its caller's; then the heap grows past
      the caller's stack top. */
  const NEGATIVE_ALLOCA: seq<Op> :=
    [Alloca(2 * PAGESIZE, 16), Call, Alloca(TWO_TO_THE_32 - PAGESIZE, 16), Mmap(6 * PAGESIZE, true), Return]

  lemma NegativeAllocaCrosses()
    ensures LayoutOk(SMALL) && Run(SMALL, Initial(SMALL), NEGATIVE_ALLOCA).Some?
    ensures var t := Run(SMALL, Initial(SMALL), NEGATIVE_ALLOCA).value; |t.tops| == 1 && t.tops[0] < t.heapEnd
  {
    var ops, mapped := NEGATIVE_ALLOCA, Initial(SMALL).mapped;
    var s1 := State(mapped, PAGESIZE, [6 * PAGESIZE]);
    assert Initial(SMALL).tops[0 := 6 * PAGESIZE] == s1.tops;
    assert Step(SMALL, Initial(SMALL), ops[0]) == Some(s1);
    var s2 := State(mapped, PAGESIZE, [6 * PAGESIZE, 6 * PAGESIZE]);
    assert s1.tops + [6 * PAGESIZE] == s2.tops;
    assert Step(SMALL, s1, ops[1]) == Some(s2);
    var s3 := State(mapped, PAGESIZE, [6 * PAGESIZE, 7 * PAGESIZE]);
    assert s2.tops[1 := 7 * PAGESIZE] == s3.tops;
    assert Step(SMALL, s2, ops[2]) == Some(s3);
    assert Step(SMALL, s3, ops[3]).Some?;
    var s4 := Step(SMALL, s3, ops[3]).value;
    assert s4.heapEnd == 7 * PAGESIZE && s4.tops == s3.tops;
    var s5 := ReturnStep(s4);
    assert Step(SMALL, s4, ops[4]) == Some(s5) && s5.tops == [6 * PAGESIZE];
    hide Step, Initial, Fits;
    assert Run(SMALL, s5, ops[5..]) == Some(s5);
    assert Run(SMALL, s4, ops[4..]) == Some(s5);
    assert Run(SMALL, s3, ops[3..]) == Some(s5);
    assert Run(SMALL, s2, ops[2..]) == Some(s5);
    assert Run(SMALL, s1, ops[1..]) == Some(s5);
  }

  ghost predicate NeverUnmapped(ops: seq<Op>, i: nat) {
    forall k :: 0 <= k < |ops| && ops[k].Munmap? ==>
      !(ops[k].addr / PAGESIZE <= i < ops[k].addr / PAGESIZE + SpanOf(ops[k].addr, ops[k].len))
  }

  lemma StepKeepsMapped(l: Layout, s: State, op: Op, i: nat)
    requires Inv(l, s) && Fits(l, s, op) && Step(l, s, op).Some?
    requires i < |s.mapped| && s.mapped[i] && NeverUnmapped([op], i)
    ensures var t := Step(l, s, op).value; |t.mapped| == |s.mapped| && t.mapped[i]
  {
    hide Inv, TopAfter, SpanOf, PagesFor, Wrap;
    match op
    case Mmap(len, anonymous) => MmapMaps(l, s, len);
    case Munmap(addr, len) =>
      assert [op][0] == op;
      MunmapUnmaps(l, s, addr, len);
    case Alloca(size, align) =>
    case Call =>
    case Return =>
  }

  lemma {:induction false} RunKeepsMapped(l: Layout, s: State, ops: seq<Op>, i: nat)
    requires Inv(l, s) && Descends(l, s, ops) && Run(l, s, ops).Some?
    requires i < |s.mapped| && s.mapped[i] && NeverUnmapped(ops, i)
    ensures var t := Run(l, s, ops).value; |t.mapped| == |s.mapped| && t.mapped[i]
    decreases |ops|
  {
    hide Inv, InFrame, Step, Fits;
    if ops != [] {
      assert NeverUnmapped([ops[0]], i) && NeverUnmapped(ops[1..], i);
      StepKeeps(l, s, ops[0]);
      StepKeepsMapped(l, s, ops[0], i);
      RunKeepsMapped(l, Step(l, s, ops[0]).value, ops[1..], i);
    }
  }

  /** A page handed out by one mapping is not handed out by a later one, whatever runs in between, unless
      an unmapping touched it. */
  lemma NeverHandedOutTwice(l: Layout, s: State, len: nat, ops: seq<Op>, again: nat, i: nat)
    requires Inv(l, s) && len <= UINT32_MAX && again <= UINT32_MAX && MmapStep(l, s, len).1.Mapped?
    requires var r := MmapStep(l, s, len).1; r.addr / PAGESIZE <= i < r.addr / PAGESIZE + PagesFor(len)
    requires Run(l, MmapStep(l, s, len).0, ops).Some? && Descends(l, MmapStep(l, s, len).0, ops)
    requires NeverUnmapped(ops, i)
    ensures var u := Run(l, MmapStep(l, s, len).0, ops).value;
      Inv(l, u)
      && var r := MmapStep(l, u, again).1;
      r.Mapped? ==> !(r.addr / PAGESIZE <= i < r.addr / PAGESIZE + PagesFor(again))
  {
    hide Inv, PagesFor, MmapStep, Run, Descends, NeverUnmapped;
    TopsBelow(l, s);
    var (t, r) := MmapStep(l, s, len);
    MmapMaps(l, s, len);
    RunKeeps(l, t, ops);
    RunKeepsMapped(l, t, ops, i);
    TopsBelow(l, Run(l, t, ops).value);
    MmapMaps(l, Run(l, t, ops).value, again);
  }

  /** munmap's computation, in 32 bits at every step, comes to the span. */
  lemma SpanStepwise(addr: nat, len: nat)
    requires addr <= UINT32_MAX && len <= UINT32_MAX
    ensures PageDown(addr) / PAGESIZE == addr / PAGESIZE
    ensures Wrap(PageUp(Wrap(addr + len)) + TWO_TO_THE_32 - PageDown(addr)) / PAGESIZE == SpanOf(addr, len)
  {
    PageOf(addr);
    PageOrder(addr, len);
    hide PageUp, PageDown, Wrap;
    if addr + len < TWO_TO_THE_32 {
      WrapOnce(addr + len);
      WrapOnce(PageUp(addr + len) - PageDown(addr));
    } else {
      PageUpLess(addr + len);
      WrapOnce(addr + len - TWO_TO_THE_32);
    }
  }

  lemma PageOf(addr: nat)
    ensures PageDown(addr) / PAGESIZE == addr / PAGESIZE
  {
  }

  lemma PageOrder(addr: nat, len: nat)
    ensures PageDown(addr) <= PageUp(addr + len)
  {
  }

  lemma WrapOnce(x: nat)
    ensures Wrap(x + TWO_TO_THE_32) == Wrap(x) && (x < TWO_TO_THE_32 ==> Wrap(x) == x)
  {
  }

  lemma PageUpLess(x: nat)
    requires TWO_TO_THE_32 <= x
    ensures PageUp(x - TWO_TO_THE_32) + TWO_TO_THE_32 == PageUp(x)
  {
  }

  lemma HeapInMemory(l: Layout, s: State)
    requires Inv(l, s)
    ensures l.heapStart / PAGESIZE <= s.heapEnd / PAGESIZE <= |s.mapped|
  {
    assert s.heapEnd <= s.tops[0];
  }

  lemma MmapRoom(l: Layout, s: State, len: nat)
    requires Inv(l, s) && len <= UINT32_MAX
    ensures 0 < |s.tops| && Wrap(PageUp(len)) == PagesFor(len) * PAGESIZE
    ensures s.heapEnd == s.heapEnd / PAGESIZE * PAGESIZE
    ensures s.heapEnd + Wrap(PageUp(len)) <= l.size ==> s.heapEnd / PAGESIZE + PagesFor(len) <= |s.mapped|
    ensures match LowestRun(s.mapped, l.heapStart / PAGESIZE, s.heapEnd / PAGESIZE, PagesFor(len))
      case Some(p) => p + PagesFor(len) <= |s.mapped|
      case None => true
  {
    PagesForExact(len);
    hide PagesFor, Wrap, PageUp;
    LowestRunIsLowest(s.mapped, l.heapStart / PAGESIZE, s.heapEnd / PAGESIZE, PagesFor(len));
  }

  // ----- the executor's own fields -----

  class AddressSpace {
    const layout: Layout
    const mappedPages: array<bool>
    var heapEnd: nat
    /** The stack tops of the main thread's frames, each in its frame; the list of frames is the stack. */
    var tops: seq<nat>

    ghost function Abs(): State
      reads this, mappedPages
    {
      State(mappedPages[..], heapEnd, tops)
    }

    ghost predicate Valid()
      reads this, mappedPages
    {
      Inv(layout, Abs())
    }

    lemma ValidIsInv()
      ensures Valid() == Inv(layout, Abs())
    {
    }

    constructor (layout: Layout)
      requires LayoutOk(layout)
      ensures Valid() && fresh(mappedPages) && this.layout == layout && Abs() == Initial(layout)
    {
      this.layout := layout;
      mappedPages := new bool[layout.size / PAGESIZE](_ => false);
      heapEnd := layout.heapStart;
      tops := [layout.size];
      new;
      for i := 0 to layout.heapStart / PAGESIZE
        invariant heapEnd == layout.heapStart && tops == [layout.size]
        invariant mappedPages[..] == SetPages(seq(layout.size / PAGESIZE, _ => false), 0, i, true)
      {
        mappedPages[i] := true;
      }
      InitialInv(layout);
    }

    /** The search of mmap for `pages` unmapped pages in a row. */
    method FindRun(pages: nat) returns (found: bool, pageStart: nat)
      requires Valid()
      ensures LowestRun(mappedPages[..], layout.heapStart / PAGESIZE, heapEnd / PAGESIZE, pages) ==
        if found then Some(pageStart) else None
    {
      var first, last := layout.heapStart / PAGESIZE, heapEnd / PAGESIZE;
      ghost var m := mappedPages[..];
      HeapInMemory(layout, Abs());
      hide Inv;
      var consecutive: nat := 0;
      found, pageStart := false, 0;
      var i: nat := first;
      while i < last
        invariant first <= i <= last <= |m| && consecutive <= i - first
        invariant pages == 0 || consecutive < pages
        invariant 0 < consecutive ==> pageStart == i - consecutive
        invariant forall k :: i - consecutive <= k < i ==> !m[k]
        invariant first < i - consecutive ==> m[i - consecutive - 1]
        invariant pages > 0 ==> forall r: nat :: first <= r && r + pages <= i ==> !Free(m, r, pages)
      {
        if !mappedPages[i] {
          if consecutive == 0 {
            pageStart := i;
          }
          consecutive := consecutive + 1;
          if consecutive == pages {
            found := true;
            assert Free(m, pageStart, pages);
            LowestRunIsLowest(m, first, last, pages);
            return;
          }
        } else {
          consecutive := 0;
        }
        forall r: nat | pages > 0 && first <= r && r + pages <= i + 1
          ensures !Free(m, r, pages)
        {
          if r + pages == i + 1 {
            assert m[if mappedPages[i] then i else i - consecutive];
          }
        }
        i := i + 1;
      }
      LowestRunIsLowest(m, first, last, pages);
    }

    method SetMapped(from: nat, n: nat, value: bool)
      requires from + n <= mappedPages.Length
      modifies mappedPages
      ensures mappedPages[..] == SetPages(old(mappedPages[..]), from, n, value)
    {
      for i := 0 to n
        invariant mappedPages[..] == SetPages(old(mappedPages[..]), from, i, value)
      {
        mappedPages[from + i] := value;
      }
    }

    /** MEMORY_MMAP */
    method Mmap(len: nat, anonymous: bool) returns (r: MmapResult)
      requires Valid() && Fits(layout, Abs(), Op.Mmap(len, anonymous))
      modifies this`heapEnd, mappedPages
      ensures Valid()
      ensures anonymous ==> (Abs(), r) == MmapStep(layout, old(Abs()), len)
      ensures !anonymous ==> r == NotAnonymous && Abs() == old(Abs())
      ensures Step(layout, old(Abs()), Op.Mmap(len, anonymous)) ==
        if r.Mapped? || r.NotAnonymous? then Some(Abs()) else None
    {
      hide Valid, Inv, LowestRun, PageUp, SetPages, HandsOut, Wrap, PagesFor;
      if !anonymous {
        return NotAnonymous;
      }
      ValidIsInv();
      HeapInMemory(layout, Abs());
      MmapMaps(layout, Abs(), len);
      MmapRoom(layout, Abs(), len);
      var bytes := Wrap(PageUp(len));
      var pages := bytes / PAGESIZE;
      assert pages == PagesFor(len);
      var found, p := FindRun(pages);
      if !found {
        if heapEnd < GUARD_SIZE || layout.size < heapEnd + bytes {
          return OutOfBounds;
        }
        if tops[|tops| - 1] < heapEnd + bytes {
          return OutOfHeap;
        }
        p := heapEnd / PAGESIZE;
        heapEnd := heapEnd + bytes;
      }
      SetMapped(p, pages, true);
      r := Mapped(p * PAGESIZE);
      ValidIsInv();
    }

    /** MEMORY_MUNMAP */
    method Munmap(addr: nat, len: nat)
      requires Valid() && addr <= UINT32_MAX && len <= UINT32_MAX
      modifies mappedPages
      ensures Valid() && Abs() == MunmapStep(layout, old(Abs()), addr, len)
      ensures Step(layout, old(Abs()), Op.Munmap(addr, len)) == Some(Abs())
    {
      hide Valid, Inv, PageUp, PageDown, SetPages, SpanOf, Wrap;
      ValidIsInv();
      MunmapUnmaps(layout, Abs(), addr, len);
      HeapInMemory(layout, Abs());
      SpanStepwise(addr, len);
      var bytes := Wrap(PageUp(Wrap(addr + len)) + TWO_TO_THE_32 - PageDown(addr));
      var firstPage, lastPage := layout.heapStart / PAGESIZE, heapEnd / PAGESIZE;
      var begin := PageDown(addr) / PAGESIZE;
      var end := begin + bytes / PAGESIZE;
      if begin < firstPage {
        begin := firstPage;
      }
      if lastPage < end {
        end := lastPage;
      }
      if begin <= end {
        SetMapped(begin, end - begin, false);
      }
      ValidIsInv();
    }

    /** alloca on the main thread's stack. */
    method Alloca(size: nat, align: nat) returns (ok: bool)
      requires Valid() && size <= UINT32_MAX && 0 < align
      modifies this`tops
      ensures ok == AllocaStep(old(Abs()), size, align).Some?
      ensures ok ==> Abs() == AllocaStep(old(Abs()), size, align).value
      ensures Step(layout, old(Abs()), Op.Alloca(size, align)) == if ok then Some(Abs()) else None
      ensures ok ==> (Valid() <==> InFrame(layout, old(Abs()), Op.Alloca(size, align)))
    {
      AllocaKeeps(layout, Abs(), size, align);
      hide Inv, TopAfter, Ceiling;
      var top := TopAfter(tops[|tops| - 1], size, align);
      tops := tops[|tops| - 1 := top];
      ok := heapEnd <= top;
    }

    /** A new frame starts at its caller's stack top. */
    method PushFrame()
      requires Valid()
      modifies this`tops
      ensures Valid() && Abs() == CallStep(old(Abs()))
      ensures Step(layout, old(Abs()), Call) == Some(Abs())
    {
      StepKeeps(layout, Abs(), Call);
      tops := tops + [tops[|tops| - 1]];
    }

    /** Returning gives back everything the frame took from the stack. */
    method PopFrame()
      requires Valid() && 1 < |tops|
      modifies this`tops
      ensures Valid() && Abs() == ReturnStep(old(Abs()))
      ensures Step(layout, old(Abs()), Return) == Some(Abs())
    {
      StepKeeps(layout, Abs(), Return);
      tops := tops[..|tops| - 1];
    }
  }
}
