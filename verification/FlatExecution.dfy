/** Running the flat instruction stream, the meaning of the control-flow graph it was made from,
    and the proof that the two agree over whole runs. */
module FlatExecution {
  import opened PhiAssigns
  import opened InstructionStream

  /** What straight-line instructions do to the values and to everything else (`mem`). */
  datatype Machine = Machine(exec: (nat, Env, int) -> (Env, int))

  datatype Result = Returned | ReturnedValue(v: int) | Stopped | Malformed

  // ----- the interpreter -----

  datatype Conf = At(pc: nat, env: Env, mem: int) | Finished(r: Result, mem: int)

  type Stream = map<nat, Rec>

  /** A condition is read through the low byte of the value. */
  function Truth(v: int): bool {
    v % 0x100 != 0
  }

  function Modulus(bits: nat): nat {
    if bits <= 8 then 0x100
    else if bits <= 16 then 0x1_0000
    else if bits <= 32 then 0x1_0000_0000
    else 0x1_0000_0000_0000_0000
  }

  /** A switch value is read as a signed integer of its type; one-bit values are read as bytes. */
  function SignedLow(bits: nat, v: int): int {
    var low := v % Modulus(bits);
    if low < Modulus(bits) / 2 then low else low - Modulus(bits)
  }

  /** The phi records from `offset` on, with target addresses in place of target blocks. */
  ghost function ReadPhis(s: Stream, offset: nat, count: nat): seq<PhiAssign> {
    if count == 0 then []
    else
      var at := offset + (count - 1) * PHI_SIZE;
      ReadPhis(s, offset, count - 1) +
      if at in s && s[at].RPhi? then [PhiAssign(s[at].inst, s[at].source, s[at].dest)] else []
  }

  /** What the phi assignments of a branch to address `dest` do. */
  ghost function PhiEffect(a: seq<PhiAssign>, dest: nat, fast: bool, env: Env): Env {
    if fast then InOrder(Group(a, dest), env) else AtOnce(Group(a, dest), env)
  }

  /** pn_thread_do_phi_assigns: one pass over the matching assignments, or a pass that reads all
      sources and a pass that writes the matching destinations. */
  method DoPhiAssigns(a: seq<PhiAssign>, dest: nat, fast: bool, env: Env) returns (e: Env)
    ensures e == PhiEffect(a, dest, fast, env)
  {
    if fast {
      e := OnePass(a, dest, env);
    } else {
      e := TwoPasses(a, dest, env);
    }
  }

  method OnePass(a: seq<PhiAssign>, dest: nat, env: Env) returns (e: Env)
    ensures e == InOrder(Group(a, dest), env)
  {
    hide Group;
    e := env;
    GroupNone(a[..0], dest);
    for i := 0 to |a|
      invariant e == InOrder(Group(a[..i], dest), env)
    {
      GroupNext(a, i, dest);
      if a[i].bb == dest {
        e := e[a[i].dest := Get(e, a[i].source)];
      }
    }
    assert a[..|a|] == a;
  }

  method TwoPasses(a: seq<PhiAssign>, dest: nat, env: Env) returns (e: Env)
    ensures e == AtOnce(Group(a, dest), env)
  {
    hide Group;
    e := env;
    var temp: seq<int> := [];
    for i := 0 to |a|
      invariant |temp| == i && forall k :: 0 <= k < i ==> temp[k] == Get(env, a[k].source)
    {
      temp := temp + [Get(env, a[i].source)];
    }
    GroupNone(a[..0], dest);
    for i := 0 to |a|
      invariant e == Write(Group(a[..i], dest), env, env)
    {
      GroupNext(a, i, dest);
      if a[i].bb == dest {
        e := e[a[i].dest := temp[i]];
      }
    }
    assert a[..|a|] == a;
  }

  lemma GroupNone(a: seq<PhiAssign>, g: nat)
    requires a == []
    ensures Group(a, g) == []
  {
  }

  lemma GroupNext(a: seq<PhiAssign>, i: nat, g: nat)
    requires i < |a|
    ensures Group(a[..i + 1], g) == Group(a[..i], g) + if a[i].bb == g then [a[i]] else []
    ensures a[i].bb != g ==> Group(a[..i + 1], g) == Group(a[..i], g)
    ensures a[i].bb == g ==> Group(a[..i + 1], g)[..|Group(a[..i + 1], g)| - 1] == Group(a[..i], g)
  {
    assert a[..i + 1][..i] == a[..i];
  }

  /** The phi part of a branch to `dest` whose phi records begin at `offset`. */
  ghost function TakePhis(s: Stream, offset: nat, dest: nat, env: Env): Env {
    if offset in s && s[offset].RPhiHead?
    then PhiEffect(ReadPhis(s, offset + PHI_HEAD_SIZE, s[offset].count), dest, s[offset].fast, env)
    else env
  }

  /** The first of the cases from number `c` on whose key is `key`. */
  ghost function Select(s: Stream, offset: nat, c: nat, count: nat, key: int, otherwise: nat): nat
    decreases count - c
  {
    if c >= count then otherwise
    else
      var at := offset + c * RUNTIME_SWITCH_CASE_SIZE;
      if at in s && s[at].RCase? && s[at].key == key then s[at].inst
      else Select(s, offset, c + 1, count, key, otherwise)
  }

  /** One instruction of the stream. */
  ghost function FlatStep(m: Machine, s: Stream, c: Conf): Conf {
    if c.Finished? then c
    else if c.pc !in s then Finished(Malformed, c.mem)
    else
      match s[c.pc]
      case ROp(code, size) =>
        var r := m.exec(code, c.env, c.mem);
        At(c.pc + size, r.0, r.1)
      case RBr(inst) =>
        At(inst, TakePhis(s, c.pc + BR_SIZE, inst, c.env), c.mem)
      case RBrIf(cond, whenTrue, whenFalse) =>
        var inst := if Truth(Get(c.env, cond)) then whenTrue else whenFalse;
        At(inst, TakePhis(s, c.pc + BR_INT1_SIZE, inst, c.env), c.mem)
      case RSwitch(bits, id, otherwise, numCases) =>
        var key := SignedLow(bits, Get(c.env, id));
        var inst := Select(s, c.pc + SWITCH_SIZE, 0, numCases, key, otherwise);
        At(inst, TakePhis(s, c.pc + SWITCH_SIZE + numCases * SWITCH_CASE_SIZE, inst, c.env), c.mem)
      case RRet => Finished(Returned, c.mem)
      case RRetValue(id) => Finished(ReturnedValue(Get(c.env, id)), c.mem)
      case RUnreachable => Finished(Stopped, c.mem)
      case RTrap => Finished(Stopped, c.mem)
      case _ => Finished(Malformed, c.mem)
  }

  ghost function FlatRun(m: Machine, s: Stream, c: Conf, k: nat): Conf {
    if k == 0 then c else FlatStep(m, s, FlatRun(m, s, c, k - 1))
  }

  // ----- the meaning of the graph -----

  datatype BlockConf = AtBlock(b: nat, env: Env, mem: int) | Done(r: Result, mem: int)

  /** Straight-line instructions in order; phis and type references do nothing by themselves. */
  ghost function Straight(m: Machine, insts: seq<Inst>, env: Env, mem: int): (Env, int) {
    if insts == [] then (env, mem)
    else
      var r := Straight(m, insts[..|insts| - 1], env, mem);
      match insts[|insts| - 1]
      case Op(code, _) => m.exec(code, r.0, r.1)
      case Nothing => r
  }

  /** The first case with the given key, or the default block. */
  ghost function FirstMatch(cases: seq<Case>, c: nat, key: int, otherwise: nat): nat
    decreases |cases| - c
  {
    if c >= |cases| then otherwise
    else if cases[c].value == key then cases[c].bb
    else FirstMatch(cases, c + 1, key, otherwise)
  }

  /** The block a branch or switch goes to. */
  ghost function Choose(t: Term, env: Env): nat
    requires Branches(t)
  {
    match t
    case Br(g) => g
    case BrIf(v, g, h) => if Truth(Get(env, v)) then g else h
    case Switch(bits, v, g, cases) => FirstMatch(cases, 0, SignedLow(bits, Get(env, v)), g)
  }

  /** One block of the graph: its instructions, then its terminator; a branch performs all phis of
      the chosen block at once. */
  ghost function BlockStep(m: Machine, f: Function, uses: Uses, c: BlockConf): BlockConf
    requires |uses| == |f| && ValidFunction(f) && (c.AtBlock? ==> c.b < |f|)
    ensures var r := BlockStep(m, f, uses, c); r.AtBlock? ==> r.b < |f|
  {
    if c.Done? then c
    else
      var r := Straight(m, f[c.b].insts, c.env, c.mem);
      assert ValidBlock(f, f[c.b]);
      match f[c.b].term
      case Ret => Done(Returned, r.1)
      case RetValue(v) => Done(ReturnedValue(Get(r.0, v)), r.1)
      case Unreachable => Done(Stopped, r.1)
      case t =>
        ChooseInRange(f, t, r.0);
        var g := Choose(t, r.0);
        AtBlock(g, AtOnce(AssignsTo(uses[g], g, c.b), r.0), r.1)
  }

  lemma ChooseInRange(f: Function, t: Term, env: Env)
    requires Branches(t) && ValidTerm(f, t)
    ensures Choose(t, env) < |f|
  {
    if t.Switch? {
      FirstMatchInRange(f, t.cases, 0, SignedLow(t.bits, Get(env, t.id)), t.otherwise);
    }
  }

  lemma {:induction false} FirstMatchInRange(f: Function, cases: seq<Case>, c: nat, key: int, otherwise: nat)
    requires otherwise < |f| && forall i :: 0 <= i < |cases| ==> cases[i].bb < |f|
    ensures FirstMatch(cases, c, key, otherwise) < |f|
    decreases |cases| - c
  {
    if c < |cases| {
      FirstMatchInRange(f, cases, c + 1, key, otherwise);
    }
  }

  lemma ChoosesTarget(t: Term, env: Env)
    requires Branches(t)
    ensures CanBranchTo(t, Choose(t, env))
  {
    if t.Switch? {
      FirstMatchIsCase(t.cases, 0, SignedLow(t.bits, Get(env, t.id)), t.otherwise);
    }
  }

  lemma {:induction false} FirstMatchIsCase(cases: seq<Case>, c: nat, key: int, otherwise: nat)
    requires c <= |cases|
    ensures var g := FirstMatch(cases, c, key, otherwise);
      g == otherwise || exists i :: 0 <= i < |cases| && cases[i].bb == g
    decreases |cases| - c
  {
    if c < |cases| {
      FirstMatchIsCase(cases, c + 1, key, otherwise);
    }
  }

  ghost function BlockRun(m: Machine, f: Function, uses: Uses, c: BlockConf, n: nat): (r: BlockConf)
    requires |uses| == |f| && ValidFunction(f) && (c.AtBlock? ==> c.b < |f|)
    ensures r.AtBlock? ==> r.b < |f|
  {
    if n == 0 then c else BlockStep(m, f, uses, BlockRun(m, f, uses, c, n - 1))
  }

  // ----- the two agree -----

  /** `f` carries the assignments and flags the phi pass computes from `uses`. */
  ghost predicate FromPass(f: Function, uses: Uses) {
    && |f| == |uses| && ValidUses(uses) && ValidFunction(f)
    && forall p :: 0 <= p < |f| ==> f[p].assigns == AssignsFrom(uses, |uses|, p) && f[p].fast == FastFlag(f[p].assigns)
  }

  /** The blocks a terminator can go on to. */
  ghost predicate CanBranchTo(t: Term, g: nat) {
    match t
    case Br(a) => g == a
    case BrIf(_, a, b) => g == a || g == b
    case Switch(_, _, a, cases) => g == a || exists c :: 0 <= c < |cases| && cases[c].bb == g
    case _ => false
  }

  /** Every block marked fast moves the same values in order as at once, for every block that it
      can branch to. */
  ghost predicate PhiSafe(f: Function, uses: Uses)
    requires |f| == |uses|
  {
    forall p: nat, g: nat {:trigger CanBranchTo(f[p].term, g)} ::
      p < |f| && g < |f| && f[p].fast && CanBranchTo(f[p].term, g) ==> SameOrigins(AssignsTo(uses[g], g, p))
  }

  /** Record `i` of block `n` is in the stream at its place. */
  ghost predicate Stored(s: Stream, f: Function, starts: seq<nat>, n: nat, i: nat)
    requires n < |f| && BlockTargets(f[n], |starts|) && n < |starts|
  {
    var recs := BlockRecs(f[n], starts);
    i < |recs| ==> starts[n] + Size(recs[..i]) in s && s[starts[n] + Size(recs[..i])] == recs[i]
  }

  /** The stream holds every block of `f`, resolved against distinct block addresses. */
  ghost predicate Holds(s: Stream, f: Function, starts: seq<nat>) {
    && |starts| == |f|
    && (forall n: nat :: n < |f| ==> BlockTargets(f[n], |f|))
    && (forall n: nat, i: nat :: n < |f| ==> Stored(s, f, starts, n, i))
    && (forall a, b :: 0 <= a < |f| && 0 <= b < |f| && starts[a] == starts[b] ==> a == b)
  }

  lemma AssembledTargets(f: Function, base: nat, n: nat)
    requires ValidFunction(f) && n < |f|
    ensures |Starts(f, base)| == |f| && BlockTargets(f[n], |f|)
  {
    BlockRecsPositive(f, n, Starts(f, base));
  }

  lemma AssembledStored(f: Function, base: nat, n: nat, i: nat)
    requires ValidFunction(f) && n < |f| && |Starts(f, base)| == |f| && BlockTargets(f[n], |f|)
    ensures Stored(FullStream(f, base), f, Starts(f, base), n, i)
  {
    hide FullStream, Starts, ValidFunction, BlockTargets, Chunks, BlockRecs, Size;
    ChunkOf(f, Starts(f, base), n);
    if i < |BlockRecs(f[n], Starts(f, base))| {
      StreamAt(f, base, n, i);
    }
  }

  lemma AssembledDistinct(f: Function, base: nat, a: nat, b: nat)
    requires a < |f| && b < |f| && |Starts(f, base)| == |f| && Starts(f, base)[a] == Starts(f, base)[b]
    ensures a == b
  {
    StartsDistinct(f, a, b, base);
  }

  /** What the two passes leave in memory is such a stream. */
  lemma AssembledHolds(f: Function, base: nat)
    requires ValidFunction(f)
    ensures Holds(FullStream(f, base), f, Starts(f, base))
  {
    assert |Starts(f, base)| == |f|;
    hide FullStream, Starts, ValidFunction, BlockTargets, Stored;
    forall n: nat | n < |f|
      ensures BlockTargets(f[n], |f|)
    {
      AssembledTargets(f, base, n);
    }
    forall n: nat, i: nat | n < |f|
      ensures Stored(FullStream(f, base), f, Starts(f, base), n, i)
    {
      AssembledStored(f, base, n, i);
    }
    forall a: nat, b: nat | a < |f| && b < |f| && Starts(f, base)[a] == Starts(f, base)[b]
      ensures a == b
    {
      AssembledDistinct(f, base, a, b);
    }
  }

  lemma ChunkOf(f: Function, starts: seq<nat>, n: nat)
    requires ValidFunction(f) && |starts| == |f| && n < |f| && BlockTargets(f[n], |f|)
    ensures Chunks(f, starts)[n] == BlockRecs(f[n], starts)
  {
  }

  /** The record that follows `pre` in block `n`. */
  lemma RecordAfter(s: Stream, f: Function, starts: seq<nat>, n: nat, pre: seq<Rec>, rest: seq<Rec>)
    requires Holds(s, f, starts) && n < |f|
    requires BlockRecs(f[n], starts) == pre + rest && rest != []
    ensures starts[n] + Size(pre) in s && s[starts[n] + Size(pre)] == rest[0]
  {
    assert Stored(s, f, starts, n, |pre|);
    assert (pre + rest)[..|pre|] == pre;
  }

  // ----- straight-line code -----

  lemma {:induction false} InstPrefix(insts: seq<Inst>, i: nat)
    requires i <= |insts|
    ensures InstRecs(insts[..i]) <= InstRecs(insts)
    ensures i < |insts| && insts[i].Op? ==>
      |InstRecs(insts[..i])| < |InstRecs(insts)| &&
      InstRecs(insts)[|InstRecs(insts[..i])|] == ROp(insts[i].code, insts[i].size)
    decreases |insts|
  {
    if i == |insts| {
      assert insts[..i] == insts;
    } else {
      var l := insts[..|insts| - 1];
      assert l[..i] == insts[..i];
      InstPrefix(l, i);
      if i == |l| {
        assert insts[..i] == l;
      }
    }
  }

  lemma OpRecord(s: Stream, f: Function, starts: seq<nat>, n: nat, i: nat)
    requires Holds(s, f, starts) && n < |f| && i < |f[n].insts| && f[n].insts[i].Op?
    ensures var at := starts[n] + InstSize(f[n].insts[..i]);
      at in s && s[at] == ROp(f[n].insts[i].code, f[n].insts[i].size)
  {
    var pre, all := InstRecs(f[n].insts[..i]), InstRecs(f[n].insts);
    InstPrefix(f[n].insts, i);
    InstSizeCorrect(f[n].insts[..i]);
    var rest := all[|pre|..] + TermRecs(f[n].term, starts) + TailRecs(f[n], starts);
    assert BlockRecs(f[n], starts) == pre + rest;
    RecordAfter(s, f, starts, n, pre, rest);
  }

  /** Running the operations of a block's first `i` instructions from its start. */
  lemma {:induction false} StraightRuns(m: Machine, s: Stream, f: Function, starts: seq<nat>, n: nat, i: nat, env: Env,
    mem: int)
    requires Holds(s, f, starts) && n < |f| && i <= |f[n].insts|
    ensures var r := Straight(m, f[n].insts[..i], env, mem);
      FlatRun(m, s, At(starts[n], env, mem), |InstRecs(f[n].insts[..i])|) ==
      At(starts[n] + InstSize(f[n].insts[..i]), r.0, r.1)
    decreases i
  {
    var insts := f[n].insts;
    if i > 0 {
      StraightRuns(m, s, f, starts, n, i - 1, env, mem);
      assert insts[..i][..i - 1] == insts[..i - 1];
      if insts[i - 1].Op? {
        OpRecord(s, f, starts, n, i - 1);
      }
    }
  }

  // ----- phi assignments -----

  /** The assignments with target addresses in place of target blocks. */
  ghost function Relocated(a: seq<PhiAssign>, starts: seq<nat>): seq<PhiAssign>
    requires forall i :: 0 <= i < |a| ==> a[i].bb < |starts|
  {
    seq(|a|, i requires 0 <= i < |a| => PhiAssign(starts[a[i].bb], a[i].source, a[i].dest))
  }

  lemma {:induction false} GroupRelocated(a: seq<PhiAssign>, starts: seq<nat>, g: nat)
    requires forall i :: 0 <= i < |a| ==> a[i].bb < |starts|
    requires g < |starts| && forall b :: 0 <= b < |starts| && starts[b] == starts[g] ==> b == g
    ensures forall i :: 0 <= i < |Group(a, g)| ==> Group(a, g)[i].bb < |starts|
    ensures Group(Relocated(a, starts), starts[g]) == Relocated(Group(a, g), starts)
    decreases |a|
  {
    if a != [] {
      var b := a[..|a| - 1];
      GroupRelocated(b, starts, g);
      assert Relocated(a, starts)[..|a| - 1] == Relocated(b, starts);
    }
  }

  lemma {:induction false} EffectRelocated(a: seq<PhiAssign>, starts: seq<nat>, from: Env, env: Env)
    requires forall i :: 0 <= i < |a| ==> a[i].bb < |starts|
    ensures InOrder(Relocated(a, starts), env) == InOrder(a, env)
    ensures Write(Relocated(a, starts), from, env) == Write(a, from, env)
    decreases |a|
  {
    if a != [] {
      assert Relocated(a, starts)[..|a| - 1] == Relocated(a[..|a| - 1], starts);
      EffectRelocated(a[..|a| - 1], starts, from, env);
    }
  }

  lemma {:induction false} ReadsPhis(s: Stream, offset: nat, a: seq<PhiAssign>, starts: seq<nat>, k: nat)
    requires forall i :: 0 <= i < |a| ==> a[i].bb < |starts|
    requires k <= |a|
    requires forall i :: 0 <= i < |a| ==>
      offset + i * PHI_SIZE in s && s[offset + i * PHI_SIZE] == PhiRecs(a, starts)[i]
    ensures ReadPhis(s, offset, k) == Relocated(a, starts)[..k]
    decreases k
  {
    if k > 0 {
      ReadsPhis(s, offset, a, starts, k - 1);
    }
  }

  ghost function PhiOffset(f: Function, starts: seq<nat>, n: nat): nat
    requires n < |f| == |starts|
  {
    starts[n] + InstSize(f[n].insts) + TermSize(f[n].term)
  }

  lemma PhiHeadFound(s: Stream, f: Function, starts: seq<nat>, n: nat)
    requires Holds(s, f, starts) && n < |f| && Branches(f[n].term)
    ensures PhiOffset(f, starts, n) in s
    ensures s[PhiOffset(f, starts, n)] == RPhiHead(|f[n].assigns|, f[n].fast)
  {
    var b := f[n];
    InstSizeCorrect(b.insts);
    TermSizeCorrect(b.term, starts);
    SizeConcat(InstRecs(b.insts), TermRecs(b.term, starts));
    RecordAfter(s, f, starts, n, InstRecs(b.insts) + TermRecs(b.term, starts), TailRecs(b, starts));
  }

  lemma PhisSize(pre: seq<Rec>, head: Rec, phis: seq<Rec>)
    requires head.RPhiHead? && forall i :: 0 <= i < |phis| ==> phis[i].RPhi?
    ensures Size(pre + [head] + phis) == Size(pre) + PHI_HEAD_SIZE + |phis| * PHI_SIZE
  {
    SizeUniform(phis, PHI_SIZE);
    SizeOne(head);
    SizeConcat(pre + [head], phis);
    SizeConcat(pre, [head]);
  }

  lemma HeldTargets(s: Stream, f: Function, starts: seq<nat>, n: nat)
    requires Holds(s, f, starts) && n < |f|
    ensures |starts| == |f| && BlockTargets(f[n], |starts|)
  {
  }

  /** What is written in a block before its `i`th phi assignment. */
  ghost function FrontOfPhi(b: Block, starts: seq<nat>, i: nat): seq<Rec>
    requires Branches(b.term) && BlockTargets(b, |starts|) && i <= |b.assigns|
  {
    InstRecs(b.insts) + TermRecs(b.term, starts) + [RPhiHead(|b.assigns|, b.fast)] + PhiRecs(b.assigns, starts)[..i]
  }

  lemma PhiFrontSize(b: Block, starts: seq<nat>, i: nat)
    requires Branches(b.term) && BlockTargets(b, |starts|) && i <= |b.assigns|
    ensures Size(FrontOfPhi(b, starts, i)) == InstSize(b.insts) + TermSize(b.term) + PHI_HEAD_SIZE + i * PHI_SIZE
  {
    hide InstRecs, TermRecs, InstSize, TermSize, Size;
    PhisSize(InstRecs(b.insts) + TermRecs(b.term, starts), RPhiHead(|b.assigns|, b.fast),
      PhiRecs(b.assigns, starts)[..i]);
    InstSizeCorrect(b.insts);
    TermSizeCorrect(b.term, starts);
    SizeConcat(InstRecs(b.insts), TermRecs(b.term, starts));
  }

  lemma PhiFrontAndRest(b: Block, starts: seq<nat>, i: nat)
    requires Branches(b.term) && BlockTargets(b, |starts|) && i < |b.assigns|
    ensures |PhiRecs(b.assigns, starts)| == |b.assigns|
    ensures BlockRecs(b, starts) == FrontOfPhi(b, starts, i) + PhiRecs(b.assigns, starts)[i..]
  {
    hide InstRecs, TermRecs;
  }

  lemma PhiRecordFound(s: Stream, f: Function, starts: seq<nat>, n: nat, i: nat)
    requires Holds(s, f, starts) && n < |f| && Branches(f[n].term) && i < |f[n].assigns|
    ensures var at := PhiOffset(f, starts, n) + PHI_HEAD_SIZE + i * PHI_SIZE;
      at in s && s[at] == PhiRecs(f[n].assigns, starts)[i]
  {
    hide Holds, BlockTargets, FrontOfPhi, BlockRecs, PhiRecs, Size, InstSize, TermSize;
    HeldTargets(s, f, starts, n);
    PhiFrontSize(f[n], starts, i);
    PhiFrontAndRest(f[n], starts, i);
    RecordAfter(s, f, starts, n, FrontOfPhi(f[n], starts, i), PhiRecs(f[n].assigns, starts)[i..]);
  }

  /** What reading the phi records of a block that branches gives. */
  lemma PhisFound(s: Stream, f: Function, starts: seq<nat>, n: nat)
    requires Holds(s, f, starts) && n < |f| && Branches(f[n].term)
    ensures ReadPhis(s, PhiOffset(f, starts, n) + PHI_HEAD_SIZE, |f[n].assigns|) == Relocated(f[n].assigns, starts)
  {
    var offset, a := PhiOffset(f, starts, n) + PHI_HEAD_SIZE, f[n].assigns;
    forall i | 0 <= i < |a|
      ensures offset + i * PHI_SIZE in s && s[offset + i * PHI_SIZE] == PhiRecs(a, starts)[i]
    {
      PhiRecordFound(s, f, starts, n, i);
    }
    ReadsPhis(s, offset, a, starts, |a|);
  }

  /** What a branch from block `n` to block `g` does to the values: one pass if the block is marked fast. */
  ghost function Moved(f: Function, uses: Uses, n: nat, g: nat, env: Env): Env
    requires n < |f| && g < |uses|
  {
    var a := AssignsTo(uses[g], g, n);
    if f[n].fast then InOrder(a, env) else AtOnce(a, env)
  }

  lemma PhisTaken(s: Stream, f: Function, uses: Uses, starts: seq<nat>, n: nat, g: nat, env: Env)
    requires Holds(s, f, starts) && FromPass(f, uses) && n < |f| && g < |f| && Branches(f[n].term)
    ensures TakePhis(s, PhiOffset(f, starts, n), starts[g], env) == Moved(f, uses, n, g, env)
  {
    PhiHeadFound(s, f, starts, n);
    PhisFound(s, f, starts, n);
    hide PhiOffset, ReadPhis;
    GroupRelocated(f[n].assigns, starts, g);
    GroupIsUses(uses, |uses|, n, g);
    EffectRelocated(AssignsTo(uses[g], g, n), starts, env, env);
  }

  // ----- terminators -----

  lemma {:induction false} Selects(s: Stream, offset: nat, cases: seq<Case>, starts: seq<nat>, c: nat, key: int,
    otherwise: nat)
    requires forall i :: 0 <= i < |cases| ==> cases[i].bb < |starts|
    requires otherwise < |starts|
    requires forall i :: 0 <= i < |cases| ==>
      offset + i * RUNTIME_SWITCH_CASE_SIZE in s
      && s[offset + i * RUNTIME_SWITCH_CASE_SIZE] == CaseRecs(cases, starts)[i]
    ensures FirstMatch(cases, c, key, otherwise) < |starts|
    ensures Select(s, offset, c, |cases|, key, starts[otherwise]) == starts[FirstMatch(cases, c, key, otherwise)]
    decreases |cases| - c
  {
    if c < |cases| {
      Selects(s, offset, cases, starts, c + 1, key, otherwise);
    }
  }

  lemma TermFound(s: Stream, f: Function, starts: seq<nat>, n: nat)
    requires Holds(s, f, starts) && n < |f|
    ensures var at := starts[n] + InstSize(f[n].insts);
      at in s && s[at] == TermRecs(f[n].term, starts)[0]
  {
    var b := f[n];
    InstSizeCorrect(b.insts);
    var pre, rest := InstRecs(b.insts), TermRecs(b.term, starts) + TailRecs(b, starts);
    assert BlockRecs(b, starts) == pre + rest && rest[0] == TermRecs(b.term, starts)[0];
    hide Holds, InstRecs, InstSize, Size, BlockRecs, TailRecs;
    RecordAfter(s, f, starts, n, pre, rest);
  }

  /** What is written in a block before the `i`th case of its switch. */
  ghost function FrontOfCase(b: Block, starts: seq<nat>, i: nat): seq<Rec>
    requires b.term.Switch? && BlockTargets(b, |starts|) && i <= |b.term.cases|
  {
    InstRecs(b.insts) + [RSwitch(b.term.bits, b.term.id, starts[b.term.otherwise], |b.term.cases|)] +
      CaseRecs(b.term.cases, starts)[..i]
  }

  lemma FrontSize(b: Block, starts: seq<nat>, i: nat)
    requires b.term.Switch? && BlockTargets(b, |starts|) && i <= |b.term.cases|
    ensures Size(FrontOfCase(b, starts, i)) == InstSize(b.insts) + SWITCH_SIZE + i * RUNTIME_SWITCH_CASE_SIZE
  {
    hide InstRecs, InstSize, Size;
    var head := RSwitch(b.term.bits, b.term.id, starts[b.term.otherwise], |b.term.cases|);
    var cases := CaseRecs(b.term.cases, starts);
    InstSizeCorrect(b.insts);
    SizeOne(head);
    SizeUniform(cases[..i], RUNTIME_SWITCH_CASE_SIZE);
    SizeConcat(InstRecs(b.insts) + [head], cases[..i]);
    SizeConcat(InstRecs(b.insts), [head]);
  }

  lemma FrontAndRest(b: Block, starts: seq<nat>, i: nat)
    requires b.term.Switch? && BlockTargets(b, |starts|) && i <= |b.term.cases|
    ensures BlockRecs(b, starts) ==
      FrontOfCase(b, starts, i) + (CaseRecs(b.term.cases, starts)[i..] + TailRecs(b, starts))
  {
    hide InstRecs, TailRecs;
  }

  lemma CasesFound(s: Stream, f: Function, starts: seq<nat>, n: nat, i: nat)
    requires Holds(s, f, starts) && n < |f| && f[n].term.Switch? && i < |f[n].term.cases|
    ensures var at := starts[n] + InstSize(f[n].insts) + SWITCH_SIZE + i * RUNTIME_SWITCH_CASE_SIZE;
      at in s && s[at] == CaseRecs(f[n].term.cases, starts)[i]
  {
    hide *;
    HeldTargets(s, f, starts, n);
    CasesOfSwitch(f[n], starts);
    FrontSize(f[n], starts, i);
    FrontAndRest(f[n], starts, i);
    RecordAfter(s, f, starts, n, FrontOfCase(f[n], starts, i),
      CaseRecs(f[n].term.cases, starts)[i..] + TailRecs(f[n], starts));
  }

  lemma CasesOfSwitch(b: Block, starts: seq<nat>)
    requires b.term.Switch? && BlockTargets(b, |starts|)
    ensures (forall c :: 0 <= c < |b.term.cases| ==> b.term.cases[c].bb < |starts|)
    ensures (forall m :: 0 <= m < |b.assigns| ==> b.assigns[m].bb < |starts|)
    ensures |CaseRecs(b.term.cases, starts)| == |b.term.cases|
  {
  }

  lemma SwitchSelects(s: Stream, f: Function, starts: seq<nat>, n: nat, key: int)
    requires Holds(s, f, starts) && n < |f| && f[n].term.Switch?
    ensures var t := f[n].term;
      && FirstMatch(t.cases, 0, key, t.otherwise) < |f|
      && Select(s, starts[n] + InstSize(f[n].insts) + SWITCH_SIZE, 0, |t.cases|, key, starts[t.otherwise])
         == starts[FirstMatch(t.cases, 0, key, t.otherwise)]
  {
    var t := f[n].term;
    var offset := starts[n] + InstSize(f[n].insts) + SWITCH_SIZE;
    forall i | 0 <= i < |t.cases|
      ensures offset + i * RUNTIME_SWITCH_CASE_SIZE in s
      ensures s[offset + i * RUNTIME_SWITCH_CASE_SIZE] == CaseRecs(t.cases, starts)[i]
    {
      CasesFound(s, f, starts, n, i);
    }
    Selects(s, offset, t.cases, starts, 0, key, t.otherwise);
  }

  /** The one-pass update is only used on the branch from `n` to `g` where it moves the same values. */
  ghost predicate SafeBranch(f: Function, uses: Uses, n: nat, g: nat) {
    n < |f| && g < |uses| && (f[n].fast ==> SameOrigins(AssignsTo(uses[g], g, n)))
  }

  lemma SafeMoves(f: Function, uses: Uses, n: nat, g: nat, env: Env)
    requires n < |f| && g < |uses| && SafeBranch(f, uses, n, g)
    ensures Moved(f, uses, n, g, env) == AtOnce(AssignsTo(uses[g], g, n), env)
  {
    if f[n].fast {
      SameOriginsAgree(AssignsTo(uses[g], g, n), env);
    }
  }

  lemma SwitchSteps(m: Machine, s: Stream, f: Function, uses: Uses, starts: seq<nat>, n: nat, env: Env, mem: int)
    requires Holds(s, f, starts) && FromPass(f, uses) && n < |f| == |starts| && f[n].term.Switch?
    requires Choose(f[n].term, env) < |f| == |uses|
    ensures var g := Choose(f[n].term, env);
      FlatStep(m, s, At(starts[n] + InstSize(f[n].insts), env, mem)) == At(starts[g], Moved(f, uses, n, g, env), mem)
  {
    HeldTargets(s, f, starts, n);
    hide Holds, FromPass, TakePhis, Select, FirstMatch, InstSize, Moved, Truth, SignedLow;
    var t := f[n].term;
    TermFound(s, f, starts, n);
    PhisTaken(s, f, uses, starts, n, Choose(t, env), env);
    SwitchSelects(s, f, starts, n, SignedLow(t.bits, Get(env, t.id)));
  }

  /** The terminator of block `n`, reached with values `env`, takes the stream to the block that the graph
      chooses. */
  lemma TermSteps(m: Machine, s: Stream, f: Function, uses: Uses, starts: seq<nat>, n: nat, env: Env, mem: int)
    requires Holds(s, f, starts) && FromPass(f, uses) && n < |f| == |starts| && Branches(f[n].term)
    requires Choose(f[n].term, env) < |f| == |uses|
    ensures var g := Choose(f[n].term, env);
      FlatStep(m, s, At(starts[n] + InstSize(f[n].insts), env, mem)) == At(starts[g], Moved(f, uses, n, g, env), mem)
  {
    HeldTargets(s, f, starts, n);
    hide Holds, FromPass, TakePhis, Select, FirstMatch, InstSize, Moved, Truth, SignedLow;
    if f[n].term.Switch? {
      SwitchSteps(m, s, f, uses, starts, n, env, mem);
    } else {
      TermFound(s, f, starts, n);
      PhisTaken(s, f, uses, starts, n, Choose(f[n].term, env), env);
    }
  }

  // ----- whole runs -----

  ghost function Image(f: Function, starts: seq<nat>, c: BlockConf): Conf
    requires |starts| == |f| && (c.AtBlock? ==> c.b < |f|)
  {
    match c
    case AtBlock(b, env, mem) => At(starts[b], env, mem)
    case Done(r, mem) => Finished(r, mem)
  }

  /** Flat steps spent on one block. */
  ghost function Cost(f: Function, c: BlockConf): nat
    requires c.AtBlock? ==> c.b < |f|
  {
    if c.AtBlock? then |InstRecs(f[c.b].insts)| + 1 else 1
  }

  lemma SimulationSizes(s: Stream, f: Function, uses: Uses, starts: seq<nat>)
    requires Holds(s, f, starts) && FromPass(f, uses)
    ensures |starts| == |f| == |uses| && ValidFunction(f)
  {
  }

  lemma BlockIsValid(f: Function, b: nat)
    requires ValidFunction(f) && b < |f|
    ensures ValidBlock(f, f[b]) && ValidTerm(f, f[b].term)
  {
  }

  lemma AlwaysSafe(f: Function, uses: Uses, n: nat, g: nat)
    requires |f| == |uses| && PhiSafe(f, uses) && n < |f| && g < |f| && CanBranchTo(f[n].term, g)
    ensures SafeBranch(f, uses, n, g)
  {
  }

  lemma FlatRunNext(m: Machine, s: Stream, c: Conf, k: nat)
    ensures FlatRun(m, s, c, k + 1) == FlatStep(m, s, FlatRun(m, s, c, k)) && FlatRun(m, s, c, 0) == c
  {
    hide FlatStep;
  }

  /** The phis of the block chosen from `c` come out as if done at once. */
  ghost predicate RightStep(m: Machine, f: Function, uses: Uses, c: BlockConf)
    requires |uses| == |f| && ValidFunction(f) && (c.AtBlock? ==> c.b < |f|)
  {
    c.AtBlock? && Branches(f[c.b].term) ==>
      var r := Straight(m, f[c.b].insts, c.env, c.mem);
      var g := Choose(f[c.b].term, r.0);
      g < |uses| ==> Moved(f, uses, c.b, g, r.0) == AtOnce(AssignsTo(uses[g], g, c.b), r.0)
  }

  lemma BranchesOn(m: Machine, f: Function, uses: Uses, c: BlockConf)
    requires |uses| == |f| && ValidFunction(f) && c.AtBlock? && c.b < |f| && Branches(f[c.b].term)
    ensures var r := Straight(m, f[c.b].insts, c.env, c.mem);
      var g := Choose(f[c.b].term, r.0);
      g < |f| && BlockStep(m, f, uses, c) == AtBlock(g, AtOnce(AssignsTo(uses[g], g, c.b), r.0), r.1)
  {
    hide Straight, AtOnce, AssignsTo, ValidFunction, Choose;
    BlockIsValid(f, c.b);
    ChooseInRange(f, f[c.b].term, Straight(m, f[c.b].insts, c.env, c.mem).0);
  }

  /** One block of the stream does what one block of the graph does if and only if the phis come out right. */
  lemma BlockStepExact(m: Machine, s: Stream, f: Function, uses: Uses, starts: seq<nat>, c: BlockConf)
    requires Holds(s, f, starts) && FromPass(f, uses) && (c.AtBlock? ==> c.b < |f|)
    ensures FlatRun(m, s, Image(f, starts, c), Cost(f, c)) == Image(f, starts, BlockStep(m, f, uses, c))
      <==> RightStep(m, f, uses, c)
  {
    hide FromPass, Holds, InstRecs, InstSize, AtOnce, AssignsTo, Moved, Choose, Straight, FlatRun;
    hide ValidBlock, ValidFunction;
    SimulationSizes(s, f, uses, starts);
    if c.AtBlock? {
      var insts, t := f[c.b].insts, f[c.b].term;
      assert insts[..|insts|] == insts;
      StraightRuns(m, s, f, starts, c.b, |insts|, c.env, c.mem);
      var r := Straight(m, insts, c.env, c.mem);
      FlatRunNext(m, s, Image(f, starts, c), |InstRecs(insts)|);
      if Branches(t) {
        BranchesOn(m, f, uses, c);
        TermSteps(m, s, f, uses, starts, c.b, r.0, r.1);
      } else {
        BlockIsValid(f, c.b);
        TermFound(s, f, starts, c.b);
      }
    } else {
      FlatRunNext(m, s, Image(f, starts, c), 0);
    }
  }

  lemma SafeStep(m: Machine, f: Function, uses: Uses, c: BlockConf)
    requires |uses| == |f| && ValidFunction(f) && PhiSafe(f, uses) && (c.AtBlock? ==> c.b < |f|)
    ensures RightStep(m, f, uses, c)
  {
    hide PhiSafe, SafeBranch, AtOnce, AssignsTo, Moved, Choose, Straight, ValidFunction;
    if c.AtBlock? && Branches(f[c.b].term) {
      var r := Straight(m, f[c.b].insts, c.env, c.mem);
      var g := Choose(f[c.b].term, r.0);
      if g < |f| {
        ChoosesTarget(f[c.b].term, r.0);
        AlwaysSafe(f, uses, c.b, g);
        SafeMoves(f, uses, c.b, g, r.0);
      }
    }
  }

  lemma {:induction false} RunMore(m: Machine, s: Stream, c: Conf, j: nat, k: nat)
    ensures FlatRun(m, s, c, j + k) == FlatRun(m, s, FlatRun(m, s, c, j), k)
    decreases k
  {
    if k > 0 {
      RunMore(m, s, c, j, k - 1);
      assert j + k - 1 == j + (k - 1);
    }
  }

  /** Flat steps spent on `n` block steps. */
  ghost function RunCost(m: Machine, f: Function, uses: Uses, c: BlockConf, n: nat): nat
    requires |uses| == |f| && ValidFunction(f) && (c.AtBlock? ==> c.b < |f|)
  {
    if n == 0 then 0 else RunCost(m, f, uses, c, n - 1) + Cost(f, BlockRun(m, f, uses, c, n - 1))
  }

  /** After `n` block steps of the graph the stream has come to the same configuration. */
  ghost predicate Matches(m: Machine, s: Stream, f: Function, uses: Uses, starts: seq<nat>, c: BlockConf, n: nat)
    requires |uses| == |f| == |starts| && ValidFunction(f) && (c.AtBlock? ==> c.b < |f|)
  {
    FlatRun(m, s, Image(f, starts, c), RunCost(m, f, uses, c, n)) == Image(f, starts, BlockRun(m, f, uses, c, n))
  }

  /** From a match, the next step gives a match exactly if its phis come out right. */
  lemma NextMatches(m: Machine, s: Stream, f: Function, uses: Uses, starts: seq<nat>, c: BlockConf, n: nat)
    requires Holds(s, f, starts) && FromPass(f, uses) && (c.AtBlock? ==> c.b < |f|)
    requires Matches(m, s, f, uses, starts, c, n)
    ensures Matches(m, s, f, uses, starts, c, n + 1) <==> RightStep(m, f, uses, BlockRun(m, f, uses, c, n))
  {
    hide Holds, FromPass, Image, Cost, FlatRun, RunCost, BlockRun, BlockStep, RightStep, ValidFunction;
    SimulationSizes(s, f, uses, starts);
    RunNext(m, f, uses, c, n + 1);
    var d := BlockRun(m, f, uses, c, n);
    BlockStepExact(m, s, f, uses, starts, d);
    RunMore(m, s, Image(f, starts, c), RunCost(m, f, uses, c, n), Cost(f, d));
  }

  /** The stream keeps up with the graph for `n` block steps if and only if at each of them the phis of
      the chosen block come out right. */
  lemma {:induction false} RunExact(m: Machine, s: Stream, f: Function, uses: Uses, starts: seq<nat>, c: BlockConf,
    n: nat)
    requires Holds(s, f, starts) && FromPass(f, uses) && (c.AtBlock? ==> c.b < |f|)
    ensures (forall k: nat :: k <= n ==> Matches(m, s, f, uses, starts, c, k))
      <==> (forall k: nat :: k < n ==> RightStep(m, f, uses, BlockRun(m, f, uses, c, k)))
    decreases n
  {
    hide Holds, FromPass, Matches, RightStep, BlockRun, ValidFunction;
    SimulationSizes(s, f, uses, starts);
    if n == 0 {
      RunStarts(m, s, f, uses, starts, c);
    } else {
      RunExact(m, s, f, uses, starts, c, n - 1);
      if Matches(m, s, f, uses, starts, c, n - 1) {
        NextMatches(m, s, f, uses, starts, c, n - 1);
      }
    }
  }

  lemma RunSimulated(m: Machine, s: Stream, f: Function, uses: Uses, starts: seq<nat>, c: BlockConf, n: nat)
    requires Holds(s, f, starts) && FromPass(f, uses) && PhiSafe(f, uses) && (c.AtBlock? ==> c.b < |f|)
    ensures FlatRun(m, s, Image(f, starts, c), RunCost(m, f, uses, c, n)) ==
      Image(f, starts, BlockRun(m, f, uses, c, n))
  {
    hide Holds, FromPass, PhiSafe, RightStep, BlockRun, RunCost, ValidFunction, FlatRun, Image;
    SimulationSizes(s, f, uses, starts);
    forall k: nat | k < n
      ensures RightStep(m, f, uses, BlockRun(m, f, uses, c, k))
    {
      SafeStep(m, f, uses, BlockRun(m, f, uses, c, k));
    }
    RunExact(m, s, f, uses, starts, c, n);
    assert Matches(m, s, f, uses, starts, c, n);
  }

  /** Each block step of the graph costs at least one step of the stream. */
  lemma {:induction false} RunAdvances(m: Machine, f: Function, uses: Uses, c: BlockConf, n: nat)
    requires |uses| == |f| && ValidFunction(f) && (c.AtBlock? ==> c.b < |f|)
    ensures RunCost(m, f, uses, c, n) >= n
    decreases n
  {
    hide ValidFunction, Cost, BlockRun;
    if n > 0 {
      RunAdvances(m, f, uses, c, n - 1);
      RunNext(m, f, uses, c, n);
    }
  }

  lemma RunStarts(m: Machine, s: Stream, f: Function, uses: Uses, starts: seq<nat>, c: BlockConf)
    requires |uses| == |f| == |starts| && ValidFunction(f) && (c.AtBlock? ==> c.b < |f|)
    ensures BlockRun(m, f, uses, c, 0) == c && Matches(m, s, f, uses, starts, c, 0)
  {
  }

  lemma RunNext(m: Machine, f: Function, uses: Uses, c: BlockConf, n: nat)
    requires |uses| == |f| && ValidFunction(f) && (c.AtBlock? ==> c.b < |f|) && 0 < n
    ensures var d := BlockRun(m, f, uses, c, n - 1);
      (d.AtBlock? ==> d.b < |f|)
      && RunCost(m, f, uses, c, n) == RunCost(m, f, uses, c, n - 1) + Cost(f, d) && 0 < Cost(f, d)
      && BlockRun(m, f, uses, c, n) == BlockStep(m, f, uses, d)
  {
    hide BlockStep;
  }

  /** Compilation preserves meaning: after any number of block steps of the graph, the assembled
      stream has come to the image of the same configuration: the start of the same block with the
      same values, or the same result. */
  lemma CompilationPreservesMeaning(m: Machine, f: Function, uses: Uses, base: nat, c: BlockConf, n: nat)
    requires FromPass(f, uses) && PhiSafe(f, uses) && (c.AtBlock? ==> c.b < |f|)
    ensures RunCost(m, f, uses, c, n) >= n
    ensures FlatRun(m, FullStream(f, base), Image(f, Starts(f, base), c), RunCost(m, f, uses, c, n)) ==
      Image(f, Starts(f, base), BlockRun(m, f, uses, c, n))
  {
    AssembledHolds(f, base);
    RunAdvances(m, f, uses, c, n);
    RunSimulated(m, FullStream(f, base), f, uses, Starts(f, base), c, n);
  }

  /** For every function: the assembled stream keeps up with the graph for `n` block steps if and only if
      at each of them the phis of the chosen block come out as if done at once. */
  lemma CompilationExact(m: Machine, f: Function, uses: Uses, base: nat, c: BlockConf, n: nat)
    requires FromPass(f, uses) && (c.AtBlock? ==> c.b < |f|) && |Starts(f, base)| == |f|
    ensures (forall k: nat :: k <= n ==> Matches(m, FullStream(f, base), f, uses, Starts(f, base), c, k))
      <==> (forall k: nat :: k < n ==> RightStep(m, f, uses, BlockRun(m, f, uses, c, k)))
  {
    hide Matches, RightStep, BlockRun, FullStream, Starts;
    AssembledHolds(f, base);
    RunExact(m, FullStream(f, base), f, uses, Starts(f, base), c, n);
  }

  /** A function in which every block feeds phis of at most one other block is safe. */
  lemma OneFedBlockIsSafe(f: Function, uses: Uses)
    requires FromPass(f, uses)
    requires forall p, i, j :: 0 <= p < |f| && 0 <= i < |f[p].assigns| && 0 <= j < |f[p].assigns| ==>
      f[p].assigns[i].bb == f[p].assigns[j].bb
    ensures PhiSafe(f, uses)
  {
    forall p: nat, g: nat | p < |f| && g < |f| && f[p].fast
      ensures SameOrigins(AssignsTo(uses[g], g, p))
    {
      var a := f[p].assigns;
      GroupIsUses(uses, |uses|, p, g);
      if a != [] {
        FlagGuardsFirstTarget(uses, p);
        GroupUniform(a, a[0].bb, g);
      }
    }
  }

  /** So for such a function compilation preserves meaning with no further condition. */
  lemma OneFedBlockPreserved(m: Machine, f: Function, uses: Uses, base: nat, c: BlockConf, n: nat)
    requires FromPass(f, uses) && (c.AtBlock? ==> c.b < |f|)
    requires forall p, i, j :: 0 <= p < |f| && 0 <= i < |f[p].assigns| && 0 <= j < |f[p].assigns| ==>
      f[p].assigns[i].bb == f[p].assigns[j].bb
    ensures FlatRun(m, FullStream(f, base), Image(f, Starts(f, base), c), RunCost(m, f, uses, c, n)) ==
      Image(f, Starts(f, base), BlockRun(m, f, uses, c, n))
  {
    OneFedBlockIsSafe(f, uses);
    CompilationPreservesMeaning(m, f, uses, base, c, n);
  }

  /** The branch from `n` to `g` performs the phis of `g` at once for every choice of values if and
      only if the block is not marked fast or the one-pass update moves the same values. */
  lemma BranchExact(f: Function, uses: Uses, base: nat, n: nat, g: nat)
    requires FromPass(f, uses) && n < |f| && g < |f| && Branches(f[n].term)
    ensures SafeBranch(f, uses, n, g) <==>
      forall env: Env :: TakePhis(FullStream(f, base), PhiOffset(f, Starts(f, base), n), Starts(f, base)[g], env)
                         == AtOnce(AssignsTo(uses[g], g, n), env)
  {
    var s, starts, a := FullStream(f, base), Starts(f, base), AssignsTo(uses[g], g, n);
    AssembledHolds(f, base);
    assert |starts| == |f|;
    hide FullStream, Starts, PhiOffset, AssignsTo, TakePhis, Holds, SameOrigins;
    if SafeBranch(f, uses, n, g) {
      forall env: Env
        ensures TakePhis(s, PhiOffset(f, starts, n), starts[g], env) == AtOnce(a, env)
      {
        PhisTaken(s, f, uses, starts, n, g, env);
        SafeMoves(f, uses, n, g, env);
      }
    } else {
      OnePassExact(a);
      var env: Env :| InOrder(a, env) != AtOnce(a, env);
      PhisTaken(s, f, uses, starts, n, g, env);
    }
  }

  // ----- a run that leaves the graph's meaning -----

  /** What the phi pass leaves in a block without instructions. */
  ghost function BareBlock(uses: Uses, n: nat, t: Term): Block {
    Block([], t, AssignsFrom(uses, |uses|, n), FastFlag(AssignsFrom(uses, |uses|, n)))
  }

  /** The loop that swaps two values: its latch goes back while value 10 is true. */
  ghost function SwapFunction(): Function {
    [BareBlock(SWAP_LOOP, 0, Br(2)), BareBlock(SWAP_LOOP, 1, RetValue(5)),
     BareBlock(SWAP_LOOP, 2, Br(3)), BareBlock(SWAP_LOOP, 3, BrIf(10, 2, 1))]
  }

  const ENTERED: seq<PhiAssign> := [PhiAssign(2, 9, 7), PhiAssign(2, 6, 8)]

  const SWAPPED: seq<PhiAssign> := [PhiAssign(2, 8, 7), PhiAssign(2, 7, 8)]

  lemma UsesOfHead(us: seq<PhiUse>)
    requires us == SWAP_LOOP[2]
    ensures AssignsTo(us, 2, 0) == ENTERED && AssignsTo(us, 2, 3) == SWAPPED
    ensures AssignsTo(us, 2, 1) == AssignsTo(us, 2, 2) == []
  {
    assert us[..3][..2] == us[..2] && us[..2][..1] == us[..1] && us[..1][..0] == [];
    assert AssignsTo(us[..0], 2, 0) == [];
    assert AssignsTo(us[..1], 2, 0) == AssignsTo(us[..2], 2, 0) == [PhiAssign(2, 9, 7)];
    SwapUses(us);
    NoneFrom(us, 2, 1);
    NoneFrom(us, 2, 2);
  }

  lemma {:induction false} NoneFrom(us: seq<PhiUse>, n: nat, p: nat)
    requires forall i :: 0 <= i < |us| ==> us[i].bb != p
    ensures AssignsTo(us, n, p) == []
    decreases |us|
  {
    if us != [] {
      NoneFrom(us[..|us| - 1], n, p);
    }
  }

  lemma UsesOfExit(us: seq<PhiUse>, p: nat)
    requires us == SWAP_LOOP[1]
    ensures AssignsTo(us, 1, p) == if p == 3 then [PhiAssign(1, 6, 5)] else []
  {
    assert us[..0] == [];
  }

  /** The assignments of the other blocks. */
  lemma SwapAssigns(p: nat)
    requires p < 3
    ensures AssignsFrom(SWAP_LOOP, 4, p) == if p == 0 then ENTERED else []
  {
    hide AssignsTo;
    UsesOfHead(SWAP_LOOP[2]);
    UsesOfExit(SWAP_LOOP[1], p);
    NoneFrom(SWAP_LOOP[0], 0, p);
    NoneFrom(SWAP_LOOP[3], 3, p);
    FromFour(SWAP_LOOP, p);
  }

  lemma FromFour(uses: Uses, p: nat)
    requires |uses| == 4
    ensures AssignsFrom(uses, 4, p) ==
      AssignsTo(uses[0], 0, p) + AssignsTo(uses[1], 1, p) + AssignsTo(uses[2], 2, p) + AssignsTo(uses[3], 3, p)
  {
    hide AssignsTo;
    assert AssignsFrom(uses, 1, p) == AssignsTo(uses[0], 0, p);
    assert AssignsFrom(uses, 2, p) == AssignsTo(uses[0], 0, p) + AssignsTo(uses[1], 1, p);
  }

  lemma SwapFromPass()
    ensures FromPass(SwapFunction(), SWAP_LOOP)
    ensures ValidFunction(SwapFunction()) && |SwapFunction()| == |SWAP_LOOP| == 4
  {
    hide AssignsFrom;
    LatchAssigns();
    SwapAssigns(0);
    SwapAssigns(1);
    SwapAssigns(2);
  }

  lemma TwoInOrder(a: seq<PhiAssign>, env: Env)
    requires |a| == 2
    ensures InOrder(a, env) == var e := env[a[0].dest := Get(env, a[0].source)]; e[a[1].dest := Get(e, a[1].source)]
    ensures AtOnce(a, env) == env[a[0].dest := Get(env, a[0].source)][a[1].dest := Get(env, a[1].source)]
  {
    var b := a[..1];
    assert b[..0] == [] && InOrder([], env) == env && Write([], env, env) == env;
    assert InOrder(b, env) == Write(b, env, env) == env[a[0].dest := Get(env, a[0].source)];
  }

  lemma OneInOrder(a: seq<PhiAssign>, env: Env)
    requires |a| <= 1
    ensures InOrder(a, env) == AtOnce(a, env)
    ensures a == [] ==> AtOnce(a, env) == env
  {
  }

  /** The values when the loop is entered. */
  ghost function Entered(env: Env): Env {
    env[7 := Get(env, 9)][8 := Get(env, 6)]
  }

  lemma SwapSteps(m: Machine, env: Env, mem: int)
    requires FromPass(SwapFunction(), SWAP_LOOP)
    ensures BlockStep(m, SwapFunction(), SWAP_LOOP, AtBlock(0, env, mem)) == AtBlock(2, Entered(env), mem)
    ensures BlockStep(m, SwapFunction(), SWAP_LOOP, AtBlock(2, env, mem)) == AtBlock(3, env, mem)
    ensures RightStep(m, SwapFunction(), SWAP_LOOP, AtBlock(0, env, mem))
    ensures RightStep(m, SwapFunction(), SWAP_LOOP, AtBlock(2, env, mem))
  {
    hide AssignsFrom, AssignsTo, AtOnce, InOrder, FromPass;
    UsesOfHead(SWAP_LOOP[2]);
    TwoInOrder(ENTERED, env);
    NoneFrom(SWAP_LOOP[3], 3, 2);
    OneInOrder([], env);
  }

  lemma LatchStep(m: Machine, env: Env, mem: int)
    requires FromPass(SwapFunction(), SWAP_LOOP)
    ensures RightStep(m, SwapFunction(), SWAP_LOOP, AtBlock(3, env, mem)) <==>
      Get(env, 7) == Get(env, 8) || !Truth(Get(env, 10))
  {
    hide AssignsFrom, AssignsTo, AtOnce, InOrder, FromPass, FastFlag;
    FlagMissesLaterTarget();
    UsesOfHead(SWAP_LOOP[2]);
    UsesOfExit(SWAP_LOOP[1], 3);
    TwoInOrder(SWAPPED, env);
    OneInOrder([PhiAssign(1, 6, 5)], env);
    assert Get(InOrder(SWAPPED, env), 8) == Get(env, 8) && Get(AtOnce(SWAPPED, env), 8) == Get(env, 7);
  }

  lemma StartsSize(f: Function, base: nat)
    ensures |Starts(f, base)| == |f|
  {
  }

  lemma SwapRun(m: Machine, env: Env, mem: int)
    requires FromPass(SwapFunction(), SWAP_LOOP) && ValidFunction(SwapFunction())
    ensures var f, c := SwapFunction(), AtBlock(0, env, mem);
      && (forall k: nat :: k < 2 ==> RightStep(m, f, SWAP_LOOP, BlockRun(m, f, SWAP_LOOP, c, k)))
      && (RightStep(m, f, SWAP_LOOP, BlockRun(m, f, SWAP_LOOP, c, 2))
        <==> Get(env, 9) == Get(env, 6) || !Truth(Get(env, 10)))
  {
    hide RightStep, BlockStep, FromPass, ValidFunction;
    SwapSteps(m, env, mem);
    SwapSteps(m, Entered(env), mem);
    LatchStep(m, Entered(env), mem);
    var f, c := SwapFunction(), AtBlock(0, env, mem);
    assert BlockRun(m, f, SWAP_LOOP, c, 0) == c;
    assert BlockRun(m, f, SWAP_LOOP, c, 1) == AtBlock(2, Entered(env), mem);
    assert BlockRun(m, f, SWAP_LOOP, c, 2) == AtBlock(3, Entered(env), mem);
  }

  /** A run of the assembled stream that leaves the meaning of the graph: at the end of the first turn of
      the swapping loop, exactly if it goes on and the values differ. */
  lemma SwapRunDiffers(m: Machine, base: nat, env: Env, mem: int)
    ensures FromPass(SwapFunction(), SWAP_LOOP) && |Starts(SwapFunction(), base)| == 4
    ensures var f, c := SwapFunction(), AtBlock(0, env, mem);
      && (forall k: nat :: k <= 2 ==> Matches(m, FullStream(f, base), f, SWAP_LOOP, Starts(f, base), c, k))
      && (Matches(m, FullStream(f, base), f, SWAP_LOOP, Starts(f, base), c, 3)
          <==> Get(env, 9) == Get(env, 6) || !Truth(Get(env, 10)))
  {
    hide *;
    SwapFromPass();
    SwapRun(m, env, mem);
    var f, c := SwapFunction(), AtBlock(0, env, mem);
    StartsSize(f, base);
    CompilationExact(m, f, SWAP_LOOP, base, c, 2);
    CompilationExact(m, f, SWAP_LOOP, base, c, 3);
  }
}
