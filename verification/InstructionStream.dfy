/** The flat instruction stream: blocks are measured, then written at the measured offsets, with
    every branch, switch and phi target replaced by the address of its block. */
module InstructionStream {
  import opened Common
  import opened PhiAssigns

  /** A straight-line instruction, or a phi or forward type reference, which occupy no space. */
  datatype Inst = Op(code: nat, size: nat) | Nothing

  datatype Case = Case(value: int, bb: nat)

  datatype Term =
    | Br(target: nat)
    | BrIf(cond: nat, whenTrue: nat, whenFalse: nat)
    | Switch(bits: nat, id: nat, otherwise: nat, cases: seq<Case>)
    | Ret
    | RetValue(id: nat)
    | Unreachable

  /** A basic block: its instructions before the terminator, the terminator, and its phi assignments. */
  datatype Block = Block(insts: seq<Inst>, term: Term, assigns: seq<PhiAssign>, fast: bool)

  type Function = seq<Block>

  /** One record of the stream. Targets are addresses. */
  datatype Rec =
    | ROp(code: nat, size: nat)
    | RBr(inst: nat)
    | RBrIf(cond: nat, whenTrue: nat, whenFalse: nat)
    | RSwitch(bits: nat, id: nat, otherwise: nat, numCases: nat)
    | RCase(key: int, inst: nat)
    | RPhiHead(count: nat, fast: bool)
    | RPhi(inst: nat, source: nat, dest: nat)
    | RRet
    | RRetValue(id: nat)
    | RUnreachable
    | RTrap

  // Sizes of the runtime structures on a 64-bit host.
  const BR_SIZE := 16
  const BR_INT1_SIZE := 24
  const SWITCH_SIZE := 24
  const SWITCH_CASE_SIZE := 16          // PNSwitchCase, used by the interpreter to step over the cases
  const RUNTIME_SWITCH_CASE_SIZE := 16  // PNRuntimeSwitchCase, used by the writer
  const PHI_HEAD_SIZE := 4
  const PHI_SIZE := 16
  const RET_SIZE := 4
  const RET_VALUE_SIZE := 8
  const UNREACHABLE_SIZE := 4
  const CALL_SIZE := 16
  const BLOCK_ALIGN := 4

  function RecSize(r: Rec): nat {
    match r
    case ROp(_, size) => size
    case RBr(_) => BR_SIZE
    case RBrIf(_, _, _) => BR_INT1_SIZE
    case RSwitch(_, _, _, _) => SWITCH_SIZE
    case RCase(_, _) => RUNTIME_SWITCH_CASE_SIZE
    case RPhiHead(_, _) => PHI_HEAD_SIZE
    case RPhi(_, _, _) => PHI_SIZE
    case RRet => RET_SIZE
    case RRetValue(_) => RET_VALUE_SIZE
    case RUnreachable => UNREACHABLE_SIZE
    case RTrap => CALL_SIZE
  }

  ghost predicate ValidTerm(f: Function, t: Term) {
    match t
    case Br(g) => g < |f|
    case BrIf(_, g, h) => g < |f| && h < |f|
    case Switch(_, _, g, cases) => g < |f| && forall c :: 0 <= c < |cases| ==> cases[c].bb < |f|
    case _ => true
  }

  ghost predicate ValidBlock(f: Function, b: Block) {
    && ValidTerm(f, b.term)
    && (forall i :: 0 <= i < |b.insts| && b.insts[i].Op? ==> b.insts[i].size > 0)
    && (forall m :: 0 <= m < |b.assigns| ==> b.assigns[m].bb < |f|)
    && |b.assigns| < 0x1_0000
  }

  /** What the reader and the phi pass guarantee: targets in range, no empty instruction, and a phi
      count that fits its 16-bit field. */
  ghost predicate ValidFunction(f: Function) {
    forall n :: 0 <= n < |f| ==> ValidBlock(f, f[n])
  }

  // ----- the records of a block -----

  ghost function InstRecs(insts: seq<Inst>): seq<Rec> {
    if insts == [] then []
    else
      var i := insts[|insts| - 1];
      InstRecs(insts[..|insts| - 1]) + if i.Op? then [ROp(i.code, i.size)] else []
  }

  ghost function CaseRecs(cases: seq<Case>, starts: seq<nat>): seq<Rec>
    requires forall c :: 0 <= c < |cases| ==> cases[c].bb < |starts|
  {
    seq(|cases|, c requires 0 <= c < |cases| => RCase(cases[c].value, starts[cases[c].bb]))
  }

  ghost function TermRecs(t: Term, starts: seq<nat>): seq<Rec>
    requires TermTargets(t, |starts|)
  {
    match t
    case Br(g) => [RBr(starts[g])]
    case BrIf(v, g, h) => [RBrIf(v, starts[g], starts[h])]
    case Switch(bits, v, g, cases) => [RSwitch(bits, v, starts[g], |cases|)] + CaseRecs(cases, starts)
    case Ret => [RRet]
    case RetValue(v) => [RRetValue(v)]
    case Unreachable => [RUnreachable]
  }

  ghost predicate TermTargets(t: Term, n: nat) {
    match t
    case Br(g) => g < n
    case BrIf(_, g, h) => g < n && h < n
    case Switch(_, _, g, cases) => g < n && forall c :: 0 <= c < |cases| ==> cases[c].bb < n
    case _ => true
  }

  predicate Branches(t: Term) {
    t.Br? || t.BrIf? || t.Switch?
  }

  ghost function PhiRecs(a: seq<PhiAssign>, starts: seq<nat>): seq<Rec>
    requires forall m :: 0 <= m < |a| ==> a[m].bb < |starts|
  {
    seq(|a|, m requires 0 <= m < |a| => RPhi(starts[a[m].bb], a[m].source, a[m].dest))
  }

  /** The phi records written after a branch or switch. */
  ghost function TailRecs(b: Block, starts: seq<nat>): seq<Rec>
    requires forall m :: 0 <= m < |b.assigns| ==> b.assigns[m].bb < |starts|
  {
    if Branches(b.term) then [RPhiHead(|b.assigns|, b.fast)] + PhiRecs(b.assigns, starts) else []
  }

  ghost predicate BlockTargets(b: Block, n: nat) {
    TermTargets(b.term, n) && forall m :: 0 <= m < |b.assigns| ==> b.assigns[m].bb < n
  }

  ghost function BlockRecs(b: Block, starts: seq<nat>): seq<Rec>
    requires BlockTargets(b, |starts|)
  {
    InstRecs(b.insts) + TermRecs(b.term, starts) + TailRecs(b, starts)
  }

  // ----- sizes -----

  ghost function Size(recs: seq<Rec>): nat {
    if recs == [] then 0 else Size(recs[..|recs| - 1]) + RecSize(recs[|recs| - 1])
  }

  ghost function InstSize(insts: seq<Inst>): nat {
    if insts == [] then 0
    else InstSize(insts[..|insts| - 1]) + if insts[|insts| - 1].Op? then insts[|insts| - 1].size else 0
  }

  ghost function TermSize(t: Term): nat {
    match t
    case Br(_) => BR_SIZE
    case BrIf(_, _, _) => BR_INT1_SIZE
    case Switch(_, _, _, cases) => SWITCH_SIZE + |cases| * RUNTIME_SWITCH_CASE_SIZE
    case Ret => RET_SIZE
    case RetValue(_) => RET_VALUE_SIZE
    case Unreachable => UNREACHABLE_SIZE
  }

  /** The bytes of a terminator and of the phi records behind it. */
  lemma TermBytes(t: Term, b: Block)
    ensures TermSize(t) ==
      if t.Br? then 16
      else if t.BrIf? then 24
      else if t.Switch? then 24 + 16 * |t.cases|
      else if t.RetValue? then 8
      else 4
    ensures BlockSize(b) - InstSize(b.insts) - TermSize(b.term) ==
      if b.term.Br? || b.term.BrIf? || b.term.Switch? then 4 + 16 * |b.assigns| else 0
  {
  }

  /** The size of a block does not depend on where the blocks are. */
  ghost function BlockSize(b: Block): nat {
    InstSize(b.insts) + TermSize(b.term) +
    if Branches(b.term) then PHI_HEAD_SIZE + |b.assigns| * PHI_SIZE else 0
  }

  lemma {:induction false} SizeConcat(a: seq<Rec>, b: seq<Rec>)
    ensures Size(a + b) == Size(a) + Size(b)
    decreases |b|
  {
    if b == [] {
      assert a + b == a;
    } else {
      assert (a + b)[..|a + b| - 1] == a + b[..|b| - 1];
      SizeConcat(a, b[..|b| - 1]);
    }
  }

  lemma {:induction false} SizeUniform(a: seq<Rec>, k: nat)
    requires forall i :: 0 <= i < |a| ==> RecSize(a[i]) == k
    ensures Size(a) == |a| * k
    decreases |a|
  {
    if a != [] {
      SizeUniform(a[..|a| - 1], k);
      assert |a| * k == (|a| - 1) * k + k;
    }
  }

  lemma {:induction false} InstSizeCorrect(insts: seq<Inst>)
    ensures Size(InstRecs(insts)) == InstSize(insts)
    decreases |insts|
  {
    if insts != [] {
      var i := insts[|insts| - 1];
      InstSizeCorrect(insts[..|insts| - 1]);
      SizeConcat(InstRecs(insts[..|insts| - 1]), if i.Op? then [ROp(i.code, i.size)] else []);
      if i.Op? {
        SizeOne(ROp(i.code, i.size));
      }
    }
  }

  lemma SizeOne(r: Rec)
    ensures Size([r]) == RecSize(r)
  {
    assert [r][..0] == [];
  }

  lemma TermSizeCorrect(t: Term, starts: seq<nat>)
    requires TermTargets(t, |starts|)
    ensures Size(TermRecs(t, starts)) == TermSize(t)
  {
    hide Size;
    if t.Switch? {
      var head := RSwitch(t.bits, t.id, starts[t.otherwise], |t.cases|);
      SizeOne(head);
      SizeConcat([head], CaseRecs(t.cases, starts));
      SizeUniform(CaseRecs(t.cases, starts), RUNTIME_SWITCH_CASE_SIZE);
    } else {
      SizeOne(TermRecs(t, starts)[0]);
    }
  }

  lemma TailSizeCorrect(b: Block, starts: seq<nat>)
    requires BlockTargets(b, |starts|)
    ensures Size(TailRecs(b, starts)) == if Branches(b.term) then PHI_HEAD_SIZE + |b.assigns| * PHI_SIZE else 0
  {
    SizeOne(RPhiHead(|b.assigns|, b.fast));
    SizeConcat([RPhiHead(|b.assigns|, b.fast)], PhiRecs(b.assigns, starts));
    SizeUniform(PhiRecs(b.assigns, starts), PHI_SIZE);
  }

  lemma BlockSizeCorrect(b: Block, starts: seq<nat>)
    requires BlockTargets(b, |starts|)
    ensures Size(BlockRecs(b, starts)) == BlockSize(b)
  {
    SizeConcat(InstRecs(b.insts), TermRecs(b.term, starts));
    SizeConcat(InstRecs(b.insts) + TermRecs(b.term, starts), TailRecs(b, starts));
    InstSizeCorrect(b.insts);
    TermSizeCorrect(b.term, starts);
    TailSizeCorrect(b, starts);
  }

  // ----- placing records -----

  /** Records laid end to end from `offset`. */
  ghost function Place(recs: seq<Rec>, offset: nat): map<nat, Rec> {
    if recs == [] then map[]
    else Place(recs[..|recs| - 1], offset)[offset + Size(recs[..|recs| - 1]) := recs[|recs| - 1]]
  }

  ghost predicate Positive(recs: seq<Rec>) {
    forall i :: 0 <= i < |recs| ==> RecSize(recs[i]) > 0
  }

  lemma {:induction false} SizeMonotone(recs: seq<Rec>, i: nat, j: nat)
    requires i <= j <= |recs|
    ensures Size(recs[..i]) <= Size(recs[..j])
    ensures i < j && Positive(recs) ==> Size(recs[..i]) + RecSize(recs[i]) <= Size(recs[..j])
    decreases j
  {
    if i < j {
      assert recs[..j][..j - 1] == recs[..j - 1];
      SizeMonotone(recs, i, j - 1);
    }
  }

  /** Laid end to end, each record is found at the sum of the sizes before it ... */
  lemma {:induction false} PlaceAt(recs: seq<Rec>, offset: nat, i: nat)
    requires Positive(recs) && i < |recs|
    ensures offset + Size(recs[..i]) in Place(recs, offset)
    ensures Place(recs, offset)[offset + Size(recs[..i])] == recs[i]
    decreases |recs|
  {
    var l := recs[..|recs| - 1];
    if i < |l| {
      assert l[..i] == recs[..i];
      PlaceAt(l, offset, i);
      SizeMonotone(recs, i, |l|);
    }
  }

  /** ... and nothing is found anywhere else. */
  lemma {:induction false} PlaceOnly(recs: seq<Rec>, offset: nat, a: nat) returns (i: nat)
    requires a in Place(recs, offset)
    ensures i < |recs| && a == offset + Size(recs[..i])
    decreases |recs|
  {
    var l := recs[..|recs| - 1];
    if a in Place(l, offset) {
      i := PlaceOnly(l, offset, a);
      assert l[..i] == recs[..i];
    } else {
      i := |l|;
    }
  }

  /** The bytes of the records lie between the two ends and do not overlap. */
  lemma PlaceExtent(recs: seq<Rec>, offset: nat, a: nat)
    requires Positive(recs) && a in Place(recs, offset)
    ensures offset <= a && a + RecSize(Place(recs, offset)[a]) <= offset + Size(recs)
    ensures forall b :: b in Place(recs, offset) && a < b ==> a + RecSize(Place(recs, offset)[a]) <= b
  {
    var i := PlaceOnly(recs, offset, a);
    PlaceAt(recs, offset, i);
    SizeMonotone(recs, i, |recs|);
    assert recs[..|recs|] == recs;
    forall b | b in Place(recs, offset) && a < b
      ensures a + RecSize(Place(recs, offset)[a]) <= b
    {
      var j := PlaceOnly(recs, offset, b);
      if j <= i {
        SizeMonotone(recs, j, i);
      } else {
        SizeMonotone(recs, i, j);
      }
    }
  }

  lemma PlaceMore(recs: seq<Rec>, r: Rec, offset: nat)
    ensures Place(recs + [r], offset) == Place(recs, offset)[offset + Size(recs) := r]
    ensures Size(recs + [r]) == Size(recs) + RecSize(r)
  {
    assert (recs + [r])[..|recs|] == recs;
  }

  // ----- the layout -----

  /** Where block `n` starts and where the blocks before it end, when the stream begins at `base`. */
  ghost function Start(f: Function, n: nat, base: nat): nat
    requires n <= |f|
    decreases n, 1
  {
    AlignUp(End(f, n, base), BLOCK_ALIGN)
  }

  ghost function End(f: Function, n: nat, base: nat): nat
    requires n <= |f|
    decreases n, 0
  {
    if n == 0 then base else Start(f, n - 1, base) + BlockSize(f[n - 1])
  }

  ghost function Starts(f: Function, base: nat): seq<nat> {
    seq(|f|, n requires 0 <= n < |f| => Start(f, n, base))
  }

  lemma AlignUpFacts(x: nat, base: nat)
    requires base % BLOCK_ALIGN == 0
    ensures x <= AlignUp(x, BLOCK_ALIGN) < x + BLOCK_ALIGN && AlignUp(x, BLOCK_ALIGN) % BLOCK_ALIGN == 0
    ensures AlignUp(base + x, BLOCK_ALIGN) == base + AlignUp(x, BLOCK_ALIGN)
  {
    var k := base / 4;
    assert base == 4 * k;
    assert (base + x + 3) / 4 == k + (x + 3) / 4;
  }

  /** Measuring from zero and writing from an aligned base lay the blocks out alike. */
  lemma {:induction false} LayoutShift(f: Function, n: nat, base: nat)
    requires n <= |f| && base % BLOCK_ALIGN == 0
    ensures End(f, n, base) == base + End(f, n, 0)
    ensures Start(f, n, base) == base + Start(f, n, 0)
    decreases n
  {
    if n > 0 {
      LayoutShift(f, n - 1, base);
    }
    AlignUpFacts(End(f, n, 0), base);
  }

  /** A block starts at the first multiple of four from the end of the one before, the first block at the
      first one from the base. */
  lemma LayoutTight(f: Function, n: nat, base: nat)
    requires n < |f|
    ensures var end := if n == 0 then base else Start(f, n - 1, base) + BlockSize(f[n - 1]);
      end <= Start(f, n, base) < end + 4 && Start(f, n, base) % 4 == 0
  {
    AlignUpFacts(End(f, n, base), 0);
  }

  /** Blocks are laid out in order, aligned, and without overlap. */
  lemma {:induction false} LayoutOrder(f: Function, n: nat, m: nat, base: nat)
    requires n < m <= |f|
    ensures Start(f, n, base) + BlockSize(f[n]) <= End(f, m, base) <= Start(f, m, base)
    ensures Start(f, n, base) % BLOCK_ALIGN == 0 && Start(f, n, base) >= base
    decreases m
  {
    AlignUpFacts(End(f, m, base), 0);
    AlignUpFacts(End(f, n, base), 0);
    if n < m - 1 {
      LayoutOrder(f, n, m - 1, base);
    } else {
      StartAfterBase(f, n, base);
    }
  }

  lemma {:induction false} StartAfterBase(f: Function, n: nat, base: nat)
    requires n <= |f|
    ensures base <= End(f, n, base) <= Start(f, n, base)
    decreases n
  {
    if n > 0 {
      StartAfterBase(f, n - 1, base);
    }
    AlignUpFacts(End(f, n, base), 0);
  }

  lemma BlockSizePositive(b: Block)
    ensures BlockSize(b) >= UNREACHABLE_SIZE
  {
  }

  /** Distinct blocks start at distinct addresses. */
  lemma StartsDistinct(f: Function, n: nat, m: nat, base: nat)
    requires n < |f| && m < |f| && Start(f, n, base) == Start(f, m, base)
    ensures n == m
  {
    BlockSizePositive(f[n]);
    BlockSizePositive(f[m]);
    if n < m {
      LayoutOrder(f, n, m, base);
    } else if m < n {
      LayoutOrder(f, m, n, base);
    }
  }

  lemma {:induction false} InstRecsPositive(insts: seq<Inst>)
    requires forall i :: 0 <= i < |insts| && insts[i].Op? ==> insts[i].size > 0
    ensures Positive(InstRecs(insts))
    decreases |insts|
  {
    if insts != [] {
      InstRecsPositive(insts[..|insts| - 1]);
    }
  }

  lemma BlockRecsPositive(f: Function, n: nat, starts: seq<nat>)
    requires ValidFunction(f) && n < |f| && |starts| == |f|
    ensures BlockTargets(f[n], |starts|) && Positive(BlockRecs(f[n], starts))
  {
    assert ValidBlock(f, f[n]);
    InstRecsPositive(f[n].insts);
  }

  // ----- the whole stream -----

  /** Chunks of records with their starts, each chunk ending before the next begins. */
  ghost predicate Laid(chunks: seq<seq<Rec>>, starts: seq<nat>, base: nat, end: nat) {
    && |chunks| == |starts|
    && (forall n :: 0 <= n < |chunks| ==>
         Positive(chunks[n]) && base <= starts[n] && starts[n] + Size(chunks[n]) <= end)
    && (forall n, m :: 0 <= n < m < |chunks| ==> starts[n] + Size(chunks[n]) <= starts[m])
  }

  ghost function PlaceAll(chunks: seq<seq<Rec>>, starts: seq<nat>, k: nat): map<nat, Rec>
    requires k <= |chunks| == |starts|
  {
    if k == 0 then map[] else PlaceAll(chunks, starts, k - 1) + Place(chunks[k - 1], starts[k - 1])
  }

  lemma {:induction false} AllOwner(chunks: seq<seq<Rec>>, starts: seq<nat>, k: nat, a: nat) returns (n: nat)
    requires k <= |chunks| == |starts| && a in PlaceAll(chunks, starts, k)
    ensures n < k && a in Place(chunks[n], starts[n])
    ensures PlaceAll(chunks, starts, k)[a] == Place(chunks[n], starts[n])[a]
    decreases k
  {
    if a in Place(chunks[k - 1], starts[k - 1]) {
      n := k - 1;
    } else {
      n := AllOwner(chunks, starts, k - 1, a);
    }
  }

  /** A chunk is not overwritten by the chunks after it. */
  lemma {:induction false} AllAt(chunks: seq<seq<Rec>>, starts: seq<nat>, k: nat, base: nat, end: nat, n: nat, a: nat)
    requires Laid(chunks, starts, base, end) && n < k <= |chunks| && a in Place(chunks[n], starts[n])
    ensures a in PlaceAll(chunks, starts, k) && PlaceAll(chunks, starts, k)[a] == Place(chunks[n], starts[n])[a]
    decreases k
  {
    if n < k - 1 {
      AllAt(chunks, starts, k - 1, base, end, n, a);
      PlaceExtent(chunks[n], starts[n], a);
      PlacePositive(chunks[n], starts[n], a);
      if a in Place(chunks[k - 1], starts[k - 1]) {
        PlaceExtent(chunks[k - 1], starts[k - 1], a);
      }
    }
  }

  lemma PlacePositive(recs: seq<Rec>, offset: nat, a: nat)
    requires Positive(recs) && a in Place(recs, offset)
    ensures RecSize(Place(recs, offset)[a]) > 0
  {
    var i := PlaceOnly(recs, offset, a);
    PlaceAt(recs, offset, i);
  }

  lemma AllExtent(chunks: seq<seq<Rec>>, starts: seq<nat>, base: nat, end: nat, a: nat, b: nat)
    requires Laid(chunks, starts, base, end)
    requires a in PlaceAll(chunks, starts, |chunks|)
    ensures base <= a < a + RecSize(PlaceAll(chunks, starts, |chunks|)[a]) <= end
    ensures b in PlaceAll(chunks, starts, |chunks|) && a < b ==> a + RecSize(PlaceAll(chunks, starts, |chunks|)[a]) <= b
  {
    var n := AllOwner(chunks, starts, |chunks|, a);
    PlaceExtent(chunks[n], starts[n], a);
    PlacePositive(chunks[n], starts[n], a);
    if b in PlaceAll(chunks, starts, |chunks|) && a < b {
      var m := AllOwner(chunks, starts, |chunks|, b);
      PlaceExtent(chunks[m], starts[m], b);
      PlacePositive(chunks[m], starts[m], b);
    }
  }

  /** The records of every block, with targets resolved against `starts`. */
  ghost function Chunks(f: Function, starts: seq<nat>): seq<seq<Rec>>
    requires ValidFunction(f) && |starts| == |f|
  {
    seq(|f|, n requires 0 <= n < |f| => assert ValidBlock(f, f[n]); BlockRecs(f[n], starts))
  }

  ghost function FullStream(f: Function, base: nat): map<nat, Rec>
    requires ValidFunction(f)
  {
    PlaceAll(Chunks(f, Starts(f, base)), Starts(f, base), |f|)[End(f, |f|, base) := RTrap]
  }

  lemma BlocksLaid(f: Function, base: nat)
    requires ValidFunction(f)
    ensures Laid(Chunks(f, Starts(f, base)), Starts(f, base), base, End(f, |f|, base))
  {
    var starts := Starts(f, base);
    var chunks := Chunks(f, starts);
    forall n | 0 <= n < |f|
      ensures Positive(chunks[n]) && Size(chunks[n]) == BlockSize(f[n])
      ensures base <= starts[n] && starts[n] + Size(chunks[n]) <= End(f, |f|, base)
    {
      BlockRecsPositive(f, n, starts);
      BlockSizeCorrect(f[n], starts);
      LayoutOrder(f, n, |f|, base);
    }
    forall n, m | 0 <= n < m < |f|
      ensures starts[n] + Size(chunks[n]) <= starts[m]
    {
      LayoutOrder(f, n, m, base);
    }
  }

  lemma TrapExtent(chunks: seq<seq<Rec>>, starts: seq<nat>, base: nat, end: nat, a: nat, b: nat)
    requires Laid(chunks, starts, base, end) && base <= end
    requires a in PlaceAll(chunks, starts, |chunks|)[end := RTrap]
    ensures var all := PlaceAll(chunks, starts, |chunks|)[end := RTrap];
      && base <= a && a + RecSize(all[a]) <= end + CALL_SIZE
      && (b in all && a < b ==> a + RecSize(all[a]) <= b)
  {
    if a in PlaceAll(chunks, starts, |chunks|) {
      AllExtent(chunks, starts, base, end, a, b);
    }
    if b in PlaceAll(chunks, starts, |chunks|) {
      AllExtent(chunks, starts, base, end, b, a);
    }
  }

  /** No two records of the stream overlap, and all of it, trap included, is inside the allocation. */
  lemma StreamExtent(f: Function, base: nat, a: nat, b: nat)
    requires ValidFunction(f) && a in FullStream(f, base)
    ensures base <= a && a + RecSize(FullStream(f, base)[a]) <= End(f, |f|, base) + CALL_SIZE
    ensures b in FullStream(f, base) && a < b ==> a + RecSize(FullStream(f, base)[a]) <= b
  {
    BlocksLaid(f, base);
    StartAfterBase(f, |f|, base);
    hide Laid, PlaceAll, ValidFunction;
    TrapExtent(Chunks(f, Starts(f, base)), Starts(f, base), base, End(f, |f|, base), a, b);
  }

  ghost predicate Found(s: map<nat, Rec>, a: nat, r: Rec) {
    a in s && s[a] == r
  }

  /** Record `i` of block `n` is found `Size` of the records before it past the block's start. */
  lemma StreamAt(f: Function, base: nat, n: nat, i: nat)
    requires ValidFunction(f) && |Starts(f, base)| == |f| && n < |f| && i < |Chunks(f, Starts(f, base))[n]|
    ensures Found(FullStream(f, base), Starts(f, base)[n] + Size(Chunks(f, Starts(f, base))[n][..i]),
                  Chunks(f, Starts(f, base))[n][i])
  {
    hide Chunks, Starts, End, ValidFunction, Size, Found, PlaceAll;
    BlocksLaid(f, base);
    ChunkAt(Chunks(f, Starts(f, base)), Starts(f, base), base, End(f, |f|, base), n, i);
  }

  lemma ChunkAt(chunks: seq<seq<Rec>>, starts: seq<nat>, base: nat, end: nat, n: nat, i: nat)
    requires Laid(chunks, starts, base, end) && n < |chunks| && i < |chunks[n]|
    ensures Found(PlaceAll(chunks, starts, |chunks|)[end := RTrap], starts[n] + Size(chunks[n][..i]), chunks[n][i])
  {
    var a := starts[n] + Size(chunks[n][..i]);
    PlaceAt(chunks[n], starts[n], i);
    AllAt(chunks, starts, |chunks|, base, end, n, a);
    AllExtent(chunks, starts, base, end, a, a);
  }

  lemma NoTail(b: Block, starts: seq<nat>)
    requires BlockTargets(b, |starts|) && !Branches(b.term)
    ensures TailRecs(b, starts) == []
  {
  }

  lemma StartsShift(f: Function, base: nat)
    requires base % BLOCK_ALIGN == 0
    ensures |Starts(f, base)| == |Starts(f, 0)| == |f|
    ensures forall n :: 0 <= n < |f| ==> Starts(f, base)[n] == base + Starts(f, 0)[n]
  {
    forall n | 0 <= n < |f|
      ensures Start(f, n, base) == base + Start(f, n, 0)
    {
      LayoutShift(f, n, base);
    }
  }

  // ----- the two passes -----

  class Assembler {
    const f: Function
    var bbOffsets: seq<nat>
    var stream: map<nat, Rec>

    constructor (f: Function)
      ensures this.f == f && stream == map[]
    {
      this.f := f;
      bbOffsets := [];
      stream := map[];
    }

    /** Stores one record at the cursor when writing, and moves the cursor past it. */
    method Emit(r: Rec, offset: nat, write: bool, ghost recs: seq<Rec>, ghost start: nat, ghost was: map<nat, Rec>)
      returns (next: nat)
      requires offset == start + Size(recs)
      requires stream == if write then was + Place(recs, start) else was
      modifies `stream
      ensures next == start + Size(recs + [r])
      ensures stream == if write then was + Place(recs + [r], start) else was
    {
      PlaceMore(recs, r, start);
      if write {
        stream := stream[offset := r];
      }
      next := offset + RecSize(r);
    }

    /** Writes block `n` at the cursor, or only measures it, and returns the moved cursor. When
        measuring there are no block addresses yet. */
    method WriteBlock(n: nat, start: nat, write: bool) returns (offset: nat)
      requires ValidFunction(f) && n < |f| && |bbOffsets| == |f|
      modifies `stream
      ensures BlockTargets(f[n], |f|) && offset == start + BlockSize(f[n])
      ensures stream == if write then old(stream) + Place(BlockRecs(f[n], bbOffsets), start) else old(stream)
    {
      var b := f[n];
      assert ValidBlock(f, b);
      BlockSizeCorrect(b, bbOffsets);
      hide Place, Size, BlockSize, InstRecs, TermRecs, TailRecs, ValidFunction;
      offset := WriteInsts(b, start, write);
      ghost var recs := InstRecs(b.insts);
      offset := WriteTerm(b.term, offset, write, recs, start, old(stream));
      recs := recs + TermRecs(b.term, bbOffsets);
      if Branches(b.term) {
        offset := WritePhis(b, offset, write, recs, start, old(stream));
      } else {
        NoTail(b, bbOffsets);
        assert recs + [] == recs;
      }
    }

    method WriteInsts(b: Block, start: nat, write: bool) returns (offset: nat)
      modifies `stream
      ensures offset == start + Size(InstRecs(b.insts))
      ensures stream == if write then old(stream) + Place(InstRecs(b.insts), start) else old(stream)
    {
      ghost var recs: seq<Rec> := [];
      offset := start;
      for i := 0 to |b.insts|
        invariant recs == InstRecs(b.insts[..i]) && offset == start + Size(recs)
        invariant stream == if write then old(stream) + Place(recs, start) else old(stream)
      {
        hide Place, Size;
        assert b.insts[..i + 1][..i] == b.insts[..i];
        match b.insts[i]
        case Op(code, size) =>
          offset := Emit(ROp(code, size), offset, write, recs, start, old(stream));
          recs := recs + [ROp(code, size)];
        case Nothing =>
          assert recs + [] == recs;
      }
      assert b.insts[..|b.insts|] == b.insts;
    }

    method WriteTerm(t: Term, start: nat, write: bool, ghost recs: seq<Rec>, ghost base: nat, ghost was: map<nat, Rec>)
      returns (offset: nat)
      requires TermTargets(t, |bbOffsets|)
      requires start == base + Size(recs)
      requires stream == if write then was + Place(recs, base) else was
      modifies `stream
      ensures offset == base + Size(recs + TermRecs(t, bbOffsets))
      ensures stream == if write then was + Place(recs + TermRecs(t, bbOffsets), base) else was
    {
      hide Place, Size;
      match t {
        case Br(g) =>
          offset := Emit(RBr(bbOffsets[g]), start, write, recs, base, was);
        case BrIf(v, g, h) =>
          offset := Emit(RBrIf(v, bbOffsets[g], bbOffsets[h]), start, write, recs, base, was);
        case Switch(bits, v, g, cases) =>
          offset := WriteSwitch(t, start, write, recs, base, was);
        case Ret =>
          offset := Emit(RRet, start, write, recs, base, was);
        case RetValue(v) =>
          offset := Emit(RRetValue(v), start, write, recs, base, was);
        case Unreachable =>
          offset := Emit(RUnreachable, start, write, recs, base, was);
      }
    }

    method WriteSwitch(t: Term, start: nat, write: bool, ghost recs: seq<Rec>, ghost base: nat,
      ghost was: map<nat, Rec>)
      returns (offset: nat)
      requires t.Switch? && TermTargets(t, |bbOffsets|)
      requires start == base + Size(recs)
      requires stream == if write then was + Place(recs, base) else was
      modifies `stream
      ensures offset == base + Size(recs + TermRecs(t, bbOffsets))
      ensures stream == if write then was + Place(recs + TermRecs(t, bbOffsets), base) else was
    {
      hide Place, Size;
      var head := RSwitch(t.bits, t.id, bbOffsets[t.otherwise], |t.cases|);
      offset := Emit(head, start, write, recs, base, was);
      ghost var done := recs + [head];
      ghost var all := CaseRecs(t.cases, bbOffsets);
      for c := 0 to |t.cases|
        invariant done == recs + [head] + all[..c] && offset == base + Size(done)
        invariant stream == if write then was + Place(done, base) else was
      {
        var r := RCase(t.cases[c].value, bbOffsets[t.cases[c].bb]);
        offset := Emit(r, offset, write, done, base, was);
        done := done + [r];
      }
      assert done == recs + TermRecs(t, bbOffsets);
    }

    method WritePhis(b: Block, start: nat, write: bool, ghost recs: seq<Rec>, ghost base: nat, ghost was: map<nat, Rec>)
      returns (offset: nat)
      requires Branches(b.term) && BlockTargets(b, |bbOffsets|)
      requires start == base + Size(recs)
      requires stream == if write then was + Place(recs, base) else was
      modifies `stream
      ensures offset == base + Size(recs + TailRecs(b, bbOffsets))
      ensures stream == if write then was + Place(recs + TailRecs(b, bbOffsets), base) else was
    {
      hide Place, Size;
      var head := RPhiHead(|b.assigns|, b.fast);
      offset := Emit(head, start, write, recs, base, was);
      ghost var done := recs + [head];
      ghost var all := PhiRecs(b.assigns, bbOffsets);
      for m := 0 to |b.assigns|
        invariant done == recs + [head] + all[..m] && offset == base + Size(done)
        invariant stream == if write then was + Place(done, base) else was
      {
        var a := b.assigns[m];
        var r := RPhi(bbOffsets[a.bb], a.source, a.dest);
        offset := Emit(r, offset, write, done, base, was);
        done := done + [r];
      }
      assert done == recs + TailRecs(b, bbOffsets);
    }

    /** Measures every block, allocates the stream at `base`, and writes every block and the trap.
        `ok` is false when the write pass reaches a block at an offset that was not the measured one. */
    method CalculateOpcodes(base: nat) returns (ok: bool, size: nat)
      requires ValidFunction(f) && base % 8 == 0 && stream == map[]
      modifies this
      ensures ok && size == End(f, |f|, base) + CALL_SIZE - base
      ensures bbOffsets == Starts(f, base)
      ensures stream == FullStream(f, base)
    {
      hide BlockRecs, BlockSize, Place, Size, BlockTargets, ValidFunction, PlaceAll, Chunks;
      var offset := MeasureAll();
      size := offset + CALL_SIZE;
      Relocate(base);
      LayoutShift(f, |f|, base);
      ok, offset := WriteAll(base);
      stream := stream[offset := RTrap];
    }

    /** The measuring pass: block offsets from zero, and where the last block ends. */
    method MeasureAll() returns (offset: nat)
      requires ValidFunction(f) && stream == map[]
      modifies this
      ensures offset == End(f, |f|, 0) && bbOffsets == Starts(f, 0) && stream == map[]
    {
      hide BlockRecs, BlockSize, Place, Size, BlockTargets, ValidFunction;
      bbOffsets := seq(|f|, _ => 0);
      offset := 0;
      for n := 0 to |f|
        invariant |bbOffsets| == |f| && offset == End(f, n, 0) && stream == map[]
        invariant forall i :: 0 <= i < n ==> bbOffsets[i] == Start(f, i, 0)
      {
        offset := AlignUp(offset, BLOCK_ALIGN);
        bbOffsets := bbOffsets[n := offset];
        offset := WriteBlock(n, offset, false);
      }
    }

    /** Turns measured offsets into addresses in the stream allocated at `base`. */
    method Relocate(base: nat)
      requires bbOffsets == Starts(f, 0) && base % 8 == 0
      modifies `bbOffsets
      ensures bbOffsets == Starts(f, base)
    {
      hide Starts;
      StartsShift(f, base);
      for n := 0 to |f|
        invariant |bbOffsets| == |f|
        invariant forall i :: 0 <= i < |f| ==> bbOffsets[i] == if i < n then Starts(f, base)[i] else Starts(f, 0)[i]
      {
        bbOffsets := bbOffsets[n := base + bbOffsets[n]];
      }
    }

    /** The write pass. `ok` is false when it reaches a block at an offset that was not measured. */
    method WriteAll(base: nat) returns (ok: bool, offset: nat)
      requires ValidFunction(f) && stream == map[] && bbOffsets == Starts(f, base)
      modifies `stream
      ensures ok && offset == End(f, |f|, base)
      ensures stream == PlaceAll(Chunks(f, Starts(f, base)), Starts(f, base), |f|)
    {
      hide BlockRecs, BlockSize, Place, Size, BlockTargets, ValidFunction;
      ghost var chunks := Chunks(f, bbOffsets);
      ok := true;
      offset := base;
      for n := 0 to |f|
        invariant bbOffsets == Starts(f, base) && offset == End(f, n, base) && ok
        invariant stream == PlaceAll(chunks, bbOffsets, n)
      {
        offset := AlignUp(offset, BLOCK_ALIGN);
        if offset != bbOffsets[n] {
          ok := false;
          return;
        }
        offset := WriteBlock(n, offset, true);
        assert chunks[n] == BlockRecs(f[n], bbOffsets);
      }
    }
  }
}
