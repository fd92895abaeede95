/** What the executor does to its live threads, in ring order, one instruction, one quantum and one
    scheduling decision at a time, and what every run keeps. */
module Scheduling {
  import opened Common
  import opened Futex

  const INSTRUCTIONS_QUANTUM: nat := 100
  const MAIN_THREAD_ID: nat := 0

  /** The live threads, the current one first, and the rest of the executor's state. A program that
      failed a check has been ended by it. */
  datatype Config = Config(
    ring: seq<View>, log: seq<Event>, mem: Memory, nextId: nat, exiting: bool, exitCode: int, failed: bool)

  ghost predicate Inv(m: Machine, c: Config) {
    && 0 < |c.ring|
    && (forall i :: 0 <= i < |c.ring| ==> c.ring[i].id < c.nextId)
    && (forall i, j :: 0 <= i < j < |c.ring| ==> c.ring[i].id != c.ring[j].id)
    && (forall i :: 0 <= i < |c.ring| ==> FutexOk(m, c.log, c.ring[i]))
    && (forall i :: 0 < i < |c.ring| ==> c.ring[i].status != Dead)
    && (exists i :: 0 <= i < |c.ring| && c.ring[i].id == MAIN_THREAD_ID)
    && (c.ring[0].status == Dead && c.ring[0].id == MAIN_THREAD_ID ==> c.exiting)
    && LogOk(c.log)
  }

  // ----- waits and wakes -----

  /** FUTEX_WAIT_ABS by the current thread, with its result. */
  ghost function WaitStep(m: Machine, c: Config, addr: nat, value: nat, abstime: nat): (Config, nat)
    requires 0 < |c.ring|
  {
    var v := c.ring[0];
    if v.futex == NoFutex then
      var word := m.load32(c.mem, addr);
      if word != value then (c.(log := c.log + [Refused(v.id, addr, word, value)]), EAGAIN)
      else
        var deadline := ReadDeadline(m, c.mem, abstime);
        (c.(ring := c.ring[0 := v.(status := Blocked(addr, deadline))],
            log := c.log + [BlockedOn(v.id, addr, deadline, word, value)]), 0)
    else
      var r := if v.futex == Woken then SUCCESS else ETIMEDOUT;
      (c.(ring := c.ring[0 := v.(futex := NoFutex)], log := c.log + [Returned(v.id, r)]), r)
  }

  predicate WaitsOn(v: View, addr: nat) {
    v.status.Blocked? && v.status.addr == addr
  }

  /** How many of these threads wait on `addr`. */
  function Waiters(vs: seq<View>, addr: nat): (n: nat)
    ensures n <= |vs|
  {
    if vs == [] then 0 else Waiters(vs[..|vs| - 1], addr) + if WaitsOn(vs[|vs| - 1], addr) then 1 else 0
  }

  lemma WaitersStep(vs: seq<View>, addr: nat, k: nat)
    requires k < |vs|
    ensures Waiters(vs[..k + 1], addr) == Waiters(vs[..k], addr) + if WaitsOn(vs[k], addr) then 1 else 0
  {
    assert vs[..k + 1][..k] == vs[..k];
  }

  lemma {:induction false} WaitersMonotone(vs: seq<View>, addr: nat, j: nat, k: nat)
    requires j <= k <= |vs|
    ensures Waiters(vs[..j], addr) <= Waiters(vs[..k], addr)
  {
    if j < k {
      WaitersMonotone(vs, addr, j, k - 1);
      WaitersStep(vs, addr, k - 1);
    }
  }

  /** The threads a wake of `nwake` reaches: the first that many waiters in ring order. */
  predicate Reached(vs: seq<View>, addr: nat, nwake: nat, i: nat)
    requires i < |vs|
  {
    WaitsOn(vs[i], addr) && Waiters(vs[..i], addr) < nwake
  }

  ghost function WakeViews(vs: seq<View>, addr: nat, nwake: nat): (us: seq<View>)
    ensures |us| == |vs|
    ensures forall i :: 0 <= i < |vs| ==>
      us[i] == if Reached(vs, addr, nwake, i) then vs[i].(status := Running, futex := Woken) else vs[i]
  {
    seq(|vs|, i requires 0 <= i < |vs| =>
      if Reached(vs, addr, nwake, i) then vs[i].(status := Running, futex := Woken) else vs[i])
  }

  ghost function WokenIds(vs: seq<View>, addr: nat, nwake: nat): set<nat> {
    set i | 0 <= i < |vs| && Reached(vs, addr, nwake, i) :: vs[i].id
  }

  /** FUTEX_WAKE by the current thread. */
  ghost function WakeStep(m: Machine, c: Config, addr: nat, nwake: nat, count: nat): Config
    requires 0 < |c.ring|
  {
    c.(ring := WakeViews(c.ring, addr, nwake),
       log := c.log + [WokeUp(c.ring[0].id, addr, WokenIds(c.ring, addr, nwake))],
       mem := m.store32(c.mem, count, Min(nwake, Waiters(c.ring, addr))))
  }

  // ----- the other instructions -----

  /** A new thread goes right behind the current one. */
  ghost function CreateStep(m: Machine, c: Config, func: nat, stack: nat, tls: nat): Config
    requires 0 < |c.ring|
  {
    var v := View(c.nextId, Running, NoFutex, m.begin(func, stack, tls));
    c.(ring := [c.ring[0], v] + c.ring[1..], nextId := c.nextId + 1)
  }

  /** A builtin call stores its result, and is stepped past unless it stopped the thread. */
  ghost function Finish(m: Machine, c: Config, r: nat): Config
    requires 0 < |c.ring|
  {
    var v := c.ring[0];
    var l := m.store(v.local, r);
    c.(ring := c.ring[0 := v.(local := if v.status == Running then m.advance(l) else l)])
  }

  /** THREAD_EXIT, which the main thread may not call. */
  ghost function ExitThreadStep(m: Machine, c: Config, flag: nat): Config
    requires 0 < |c.ring|
  {
    var v := c.ring[0];
    if v.id == MAIN_THREAD_ID then c.(failed := true)
    else
      var mem := if flag != 0 then m.store32(c.mem, flag, 0) else c.mem;
      Finish(m, c.(ring := c.ring[0 := v.(status := Dead)], mem := mem), 0)
  }

  /** Returning from the top frame ends the thread, and the program when it is the main thread. */
  ghost function ReturnStep(m: Machine, c: Config, code: int): Config
    requires 0 < |c.ring|
  {
    var d := c.(ring := c.ring[0 := c.ring[0].(status := Dead)]);
    if c.ring[0].id == MAIN_THREAD_ID then d.(exiting := true, exitCode := code) else d
  }

  /** BASIC_EXIT */
  ghost function ExitProcessStep(m: Machine, c: Config, code: int): Config
    requires 0 < |c.ring|
  {
    Finish(m, c.(ring := c.ring[0 := c.ring[0].(status := Dead)], exiting := true, exitCode := code), 0)
  }

  /** The trap instruction ends the program where it is. */
  ghost function TrapStep(c: Config): Config
    requires 0 < |c.ring|
  {
    c.(ring := c.ring[0 := c.ring[0].(status := Dead)], exiting := true, exitCode := -1)
  }

  ghost function OtherStep(m: Machine, c: Config): Config
    requires 0 < |c.ring|
  {
    var (l, mem) := m.exec(c.ring[0].local, c.mem);
    c.(ring := c.ring[0 := c.ring[0].(local := l)], mem := mem)
  }

  /** One instruction of the current thread. */
  ghost function Instruction(m: Machine, c: Config): (d: Config)
    requires 0 < |c.ring|
    ensures |c.ring| <= |d.ring| && d.ring[0].id == c.ring[0].id
  {
    var v := c.ring[0];
    match m.decode(v.local)
    case Wait(addr, value, abstime) =>
      var (d, r) := WaitStep(m, c, addr, value, abstime);
      Finish(m, d, r)
    case Wake(addr, nwake, count) => Finish(m, WakeStep(m, c, addr, nwake, count), 0)
    case Create(func, stack, tls) => Finish(m, CreateStep(m, c, func, stack, tls), 0)
    case ExitThread(flag) => ExitThreadStep(m, c, flag)
    case ExitProcess(code) => ExitProcessStep(m, c, code)
    case Trap => TrapStep(c)
    case ReturnFromTop(code) => ReturnStep(m, c, code)
    case Other => OtherStep(m, c)
  }

  /** What each kind of instruction is. */
  lemma InstructionIs(m: Machine, c: Config)
    requires 0 < |c.ring|
    ensures match m.decode(c.ring[0].local)
      case Wait(addr, value, abstime) =>
        var (d, r) := WaitStep(m, c, addr, value, abstime);
        Instruction(m, c) == Finish(m, d, r)
      case Wake(addr, nwake, count) => Instruction(m, c) == Finish(m, WakeStep(m, c, addr, nwake, count), 0)
      case Create(func, stack, tls) => Instruction(m, c) == Finish(m, CreateStep(m, c, func, stack, tls), 0)
      case ExitThread(flag) => Instruction(m, c) == ExitThreadStep(m, c, flag)
      case ExitProcess(code) => Instruction(m, c) == ExitProcessStep(m, c, code)
      case Trap => Instruction(m, c) == TrapStep(c)
      case ReturnFromTop(code) => Instruction(m, c) == ReturnStep(m, c, code)
      case Other => Instruction(m, c) == OtherStep(m, c)
  {
  }

  /** The current thread runs until it stops running or has had its quantum. */
  ghost function Quantum(m: Machine, c: Config, n: nat): (d: Config)
    requires 0 < |c.ring|
    ensures |c.ring| <= |d.ring| && d.ring[0].id == c.ring[0].id
    decreases n
  {
    if n == 0 || c.failed || c.ring[0].status != Running then c
    else Quantum(m, Instruction(m, c), n - 1)
  }

  // ----- scheduling -----

  /** On to the next thread, leaving a dead one out of the ring. */
  ghost function Yield(c: Config): Config
    requires 0 < |c.ring|
  {
    if c.ring[0].status == Dead then c.(ring := c.ring[1..])
    else c.(ring := c.ring[1..] + [c.ring[0]])
  }

  predicate Expires(v: View, now: Time) {
    v.status.Blocked? && Passed(now, v.status.deadline)
  }

  ghost function Expire(c: Config, now: Time): Config
    requires 0 < |c.ring|
  {
    c.(ring := c.ring[0 := c.ring[0].(status := Running, futex := TimedOut)],
       log := c.log + [Expired(c.ring[0].id, now)])
  }

  /** The scheduling loop, reading the clock once at each blocked thread, for `limit` threads at most. */
  ghost function Search(c: Config, clock: nat -> Time, k: nat, limit: nat): (d: Config)
    requires 0 < |c.ring| && k <= limit
    ensures |d.ring| == |c.ring| && d.nextId == c.nextId
    decreases limit - k
  {
    if k == limit || c.ring[0].status == Running then c
    else if Expires(c.ring[0], clock(k)) then Expire(c, clock(k))
    else Search(c.(ring := c.ring[1..] + [c.ring[0]]), clock, k + 1, limit)
  }

  ghost predicate Ended(c: Config) {
    c.exiting || c.failed
  }

  // ----- every instruction keeps the invariant -----

  /** An event about the current thread alone leaves every other thread's account as it was. */
  lemma OthersKeep(m: Machine, c: Config, e: Event)
    requires Inv(m, c) && (forall i :: 0 < i < |c.ring| ==> !Concerns(e, c.ring[i].id))
    ensures forall i :: 0 < i < |c.ring| ==> FutexOk(m, c.log + [e], c.ring[i])
  {
    hide FutexOk, LogOk;
    forall i | 0 < i < |c.ring|
      ensures FutexOk(m, c.log + [e], c.ring[i])
    {
      UnconcernedKeeps(m, c.log, e, c.ring[i]);
    }
  }

  lemma WaitKeeps(m: Machine, c: Config, addr: nat, value: nat, abstime: nat)
    requires Inv(m, c) && c.ring[0].status == Running && m.decode(c.ring[0].local) == Wait(addr, value, abstime)
    ensures var d := WaitStep(m, c, addr, value, abstime).0; Inv(m, d) && d.ring[0].futex == NoFutex
  {
    hide FutexOk, LogOk, Explained, ReadDeadline;
    var v := c.ring[0];
    var (d, r) := WaitStep(m, c, addr, value, abstime);
    var e := d.log[|c.log|];
    if v.futex == NoFutex {
      if e.BlockedOn? {
        BlockStarts(m, c.log, e, d.ring[0]);
      } else {
        NewIsOk(m, d.log, d.ring[0]);
      }
    } else {
      StillRuns(m, c.log, v);
      ReturnExplained(m, c.log, v, r);
      NewIsOk(m, d.log, d.ring[0]);
    }
    OthersKeep(m, c, e);
    LogAppend(c.log, e);
    KeepsIds(m, c, d);
  }

  lemma StillRuns(m: Machine, log: seq<Event>, v: View)
    requires FutexOk(m, log, v) && v.futex != NoFutex
    ensures v.status == Running
  {
  }

  /** A step that keeps the threads, and kills at most the current one, keeps the rest of the invariant. */
  lemma KeepsIds(m: Machine, c: Config, d: Config)
    requires Inv(m, c) && |d.ring| == |c.ring| && c.nextId == d.nextId && LogOk(d.log)
    requires forall i :: 0 <= i < |c.ring| ==> d.ring[i].id == c.ring[i].id && FutexOk(m, d.log, d.ring[i])
    requires forall i :: 0 < i < |c.ring| ==> d.ring[i].status != Dead
    requires d.ring[0].status == Dead && d.ring[0].id == MAIN_THREAD_ID ==> d.exiting
    ensures Inv(m, d)
  {
    hide FutexOk, LogOk;
    var i :| 0 <= i < |c.ring| && c.ring[i].id == MAIN_THREAD_ID;
    assert d.ring[i].id == MAIN_THREAD_ID;
  }

  lemma WakeKeeps(m: Machine, c: Config, addr: nat, nwake: nat, count: nat)
    requires Inv(m, c) && c.ring[0].status == Running
    ensures var d := WakeStep(m, c, addr, nwake, count); Inv(m, d) && d.ring[0] == c.ring[0]
  {
    hide FutexOk, LogOk;
    var d := WakeStep(m, c, addr, nwake, count);
    var e := WokeUp(c.ring[0].id, addr, WokenIds(c.ring, addr, nwake));
    forall i | 0 <= i < |c.ring|
      ensures FutexOk(m, d.log, d.ring[i])
    {
      if Reached(c.ring, addr, nwake, i) {
        BlockedHasNoFutex(m, c.log, c.ring[i]);
        assert c.ring[i].id in WokenIds(c.ring, addr, nwake);
        ReleaseOk(m, c.log, e, c.ring[i], d.ring[i]);
      } else {
        UnconcernedKeeps(m, c.log, e, c.ring[i]);
      }
    }
    LogAppend(c.log, e);
    KeepsIds(m, c, d);
  }

  lemma BlockedHasNoFutex(m: Machine, log: seq<Event>, v: View)
    requires FutexOk(m, log, v) && v.status.Blocked?
    ensures v.futex == NoFutex
  {
  }

  lemma NewIsOk(m: Machine, log: seq<Event>, v: View)
    requires v.futex == NoFutex && !v.status.Blocked?
    ensures FutexOk(m, log, v)
  {
  }

  lemma CreateKeeps(m: Machine, c: Config, func: nat, stack: nat, tls: nat)
    requires Inv(m, c) && c.ring[0].status == Running
    ensures Inv(m, CreateStep(m, c, func, stack, tls))
  {
    hide LogOk, FutexOk;
    var d := CreateStep(m, c, func, stack, tls);
    assert forall i :: 2 <= i < |d.ring| ==> d.ring[i] == c.ring[i - 1];
    NewIsOk(m, c.log, d.ring[1]);
    var k :| 0 <= k < |c.ring| && c.ring[k].id == MAIN_THREAD_ID;
    assert d.ring[if k == 0 then 0 else k + 1].id == MAIN_THREAD_ID;
  }

  lemma FinishKeeps(m: Machine, c: Config, r: nat)
    requires SingleAssignment(m) && Inv(m, c) && c.ring[0].futex == NoFutex
    ensures Inv(m, Finish(m, c, r))
  {
    var d := Finish(m, c, r);
    assert FutexOk(m, d.log, d.ring[0]);
    KeepsIds(m, c, d);
  }

  /** Only a thread at a wait call has its futex state set. */
  lemma OnlyWaitsAreReleased(m: Machine, c: Config)
    requires Inv(m, c) && !m.decode(c.ring[0].local).Wait?
    ensures c.ring[0].futex == NoFutex
  {
  }

  /** The current thread may change to anything that is not waiting; only a main thread that dies must
      end the program. */
  lemma CurrentKeeps(m: Machine, c: Config, d: Config)
    requires Inv(m, c) && 0 < |d.ring| && d.ring == c.ring[0 := d.ring[0]] && d.log == c.log && d.nextId == c.nextId
    requires d.ring[0].id == c.ring[0].id && d.ring[0].futex == NoFutex && !d.ring[0].status.Blocked?
    requires d.ring[0].status == Dead && d.ring[0].id == MAIN_THREAD_ID ==> d.exiting
    ensures Inv(m, d)
  {
    assert FutexOk(m, d.log, d.ring[0]);
    KeepsIds(m, c, d);
  }

  /** An instruction that is no wait, wake or creation. */
  lemma OwnKeeps(m: Machine, c: Config)
    requires Inv(m, c) && c.ring[0].status == Running && c.ring[0].futex == NoFutex
    requires var i := m.decode(c.ring[0].local); !i.Wait? && !i.Wake? && !i.Create?
    ensures Inv(m, Instruction(m, c))
  {
    assert 0 < |c.ring|;
    hide Inv;
    CurrentKeeps(m, c, Instruction(m, c));
  }

  /** Whatever the current thread executes, the invariant is kept. */
  lemma InstructionKeeps(m: Machine, c: Config)
    requires SingleAssignment(m) && Inv(m, c) && c.ring[0].status == Running
    ensures Inv(m, Instruction(m, c))
  {
    assert 0 < |c.ring|;
    hide Inv, SingleAssignment, Instruction, Finish, WaitStep, WakeStep, CreateStep;
    InstructionIs(m, c);
    match m.decode(c.ring[0].local)
    case Wait(addr, value, abstime) =>
      WaitKeeps(m, c, addr, value, abstime);
      var (d, r) := WaitStep(m, c, addr, value, abstime);
      FinishKeeps(m, d, r);
    case Wake(addr, nwake, count) =>
      OnlyWaitsAreReleased(m, c);
      WakeKeeps(m, c, addr, nwake, count);
      FinishKeeps(m, WakeStep(m, c, addr, nwake, count), 0);
    case Create(func, stack, tls) =>
      OnlyWaitsAreReleased(m, c);
      CreateKeeps(m, c, func, stack, tls);
      FinishKeeps(m, CreateStep(m, c, func, stack, tls), 0);
    case _ =>
      OnlyWaitsAreReleased(m, c);
      OwnKeeps(m, c);
  }

  lemma {:induction false} QuantumKeeps(m: Machine, c: Config, n: nat)
    requires SingleAssignment(m) && Inv(m, c)
    ensures Inv(m, Quantum(m, c, n))
    decreases n
  {
    hide FutexOk, LogOk, SingleAssignment, Instruction;
    if !(n == 0 || c.failed || c.ring[0].status != Running) {
      InstructionKeeps(m, c);
      QuantumKeeps(m, Instruction(m, c), n - 1);
    }
  }

  // ----- what one thread can do to the others -----

  /** A thread that is not current is left alone, or woken. */
  predicate Calm(v: View, u: View) {
    u == v || (v.status.Blocked? && u == v.(status := Running, futex := Woken))
  }

  /** The new threads stand right behind the current one; the others keep their order. */
  ghost predicate Grown(c: Config, d: Config) {
    && 0 < |c.ring| && d.nextId - c.nextId == |d.ring| - |c.ring| && c.nextId <= d.nextId
    && d.ring[0].id == c.ring[0].id
    && (forall i :: 0 < i < |c.ring| ==> Calm(c.ring[i], d.ring[i + (|d.ring| - |c.ring|)]))
  }

  lemma SameGrows(c: Config, d: Config)
    requires 0 < |c.ring| == |d.ring| && d.nextId == c.nextId && d.ring[0].id == c.ring[0].id
    requires d.ring == c.ring[0 := d.ring[0]]
    ensures Grown(c, d)
  {
  }

  lemma WakeGrows(m: Machine, c: Config, addr: nat, nwake: nat, count: nat)
    requires 0 < |c.ring|
    ensures Grown(c, WakeStep(m, c, addr, nwake, count))
  {
  }

  lemma CreateGrows(m: Machine, c: Config, func: nat, stack: nat, tls: nat)
    requires 0 < |c.ring|
    ensures Grown(c, CreateStep(m, c, func, stack, tls))
  {
  }

  lemma InstructionGrows(m: Machine, c: Config)
    requires 0 < |c.ring|
    ensures Grown(c, Instruction(m, c))
  {
    hide Grown;
    var v := c.ring[0];
    match m.decode(v.local)
    case Wake(addr, nwake, count) =>
      var d := WakeStep(m, c, addr, nwake, count);
      WakeGrows(m, c, addr, nwake, count);
      SameGrows(d, Finish(m, d, 0));
      GrownTrans(c, d, Finish(m, d, 0));
    case Create(func, stack, tls) =>
      var d := CreateStep(m, c, func, stack, tls);
      CreateGrows(m, c, func, stack, tls);
      SameGrows(d, Finish(m, d, 0));
      GrownTrans(c, d, Finish(m, d, 0));
    case _ => SameGrows(c, Instruction(m, c));
  }

  lemma GrownTrans(c: Config, d: Config, e: Config)
    requires Grown(c, d) && Grown(d, e)
    ensures Grown(c, e)
  {
    forall i | 0 < i < |c.ring|
      ensures Calm(c.ring[i], e.ring[i + (|e.ring| - |c.ring|)])
    {
      var j := i + (|d.ring| - |c.ring|);
      assert Calm(c.ring[i], d.ring[j]) && Calm(d.ring[j], e.ring[j + (|e.ring| - |d.ring|)]);
    }
  }

  lemma {:induction false} QuantumGrows(m: Machine, c: Config, n: nat)
    requires 0 < |c.ring|
    ensures Grown(c, Quantum(m, c, n))
    decreases n
  {
    hide Instruction, Grown;
    if n == 0 || c.failed || c.ring[0].status != Running {
      SameGrows(c, c);
    } else {
      InstructionGrows(m, c);
      QuantumGrows(m, Instruction(m, c), n - 1);
      GrownTrans(c, Instruction(m, c), Quantum(m, c, n));
    }
  }

  // ----- a wake reaches exactly the first waiters -----

  ghost predicate DistinctIds(vs: seq<View>) {
    forall i, j :: 0 <= i < j < |vs| ==> vs[i].id != vs[j].id
  }

  ghost function ReachedIn(vs: seq<View>, addr: nat, nwake: nat, k: nat): set<nat>
    requires k <= |vs|
  {
    set i | 0 <= i < k && Reached(vs, addr, nwake, i) :: vs[i].id
  }

  lemma ReachedStep(vs: seq<View>, addr: nat, nwake: nat, k: nat)
    requires DistinctIds(vs) && k < |vs|
    ensures vs[k].id !in ReachedIn(vs, addr, nwake, k)
    ensures ReachedIn(vs, addr, nwake, k + 1)
      == ReachedIn(vs, addr, nwake, k) + if Reached(vs, addr, nwake, k) then {vs[k].id} else {}
  {
    hide Reached;
  }

  lemma {:induction false} ReachedCount(vs: seq<View>, addr: nat, nwake: nat, k: nat)
    requires DistinctIds(vs) && k <= |vs|
    ensures |ReachedIn(vs, addr, nwake, k)| == Min(nwake, Waiters(vs[..k], addr))
  {
    hide ReachedIn, Waiters, WaitsOn;
    if k > 0 {
      ReachedCount(vs, addr, nwake, k - 1);
      WaitersStep(vs, addr, k - 1);
      ReachedStep(vs, addr, nwake, k - 1);
    } else {
      assert vs[..0] == [];
      NoneReached(vs, addr, nwake);
    }
  }

  lemma NoneReached(vs: seq<View>, addr: nat, nwake: nat)
    ensures |ReachedIn(vs, addr, nwake, 0)| == 0 && Waiters([], addr) == 0
  {
  }

  /** A wake releases as many waiters on the address as it may and there are, the first in ring order,
      and nobody else. */
  lemma WakesFirstWaiters(vs: seq<View>, addr: nat, nwake: nat)
    requires DistinctIds(vs)
    ensures |WokenIds(vs, addr, nwake)| == Min(nwake, Waiters(vs, addr))
    ensures forall i, j :: 0 <= i < j < |vs| && WaitsOn(vs[i], addr) && Reached(vs, addr, nwake, j) ==>
      Reached(vs, addr, nwake, i)
    ensures forall i :: 0 <= i < |vs| && !Reached(vs, addr, nwake, i) ==> WakeViews(vs, addr, nwake)[i] == vs[i]
  {
    ReachedCount(vs, addr, nwake, |vs|);
    assert vs[..|vs|] == vs;
    assert WokenIds(vs, addr, nwake) == ReachedIn(vs, addr, nwake, |vs|);
    forall i, j | 0 <= i < j < |vs| && WaitsOn(vs[i], addr) && Reached(vs, addr, nwake, j)
      ensures Reached(vs, addr, nwake, i)
    {
      WaitersMonotone(vs, addr, i, j);
    }
  }

  // ----- the scheduling loop -----

  /** No thread in the ring is dead. */
  ghost predicate AllLive(c: Config) {
    forall i :: 0 <= i < |c.ring| ==> c.ring[i].status != Dead
  }

  ghost function Rotated(c: Config): Config
    requires 0 < |c.ring|
  {
    c.(ring := c.ring[1..] + [c.ring[0]])
  }

  lemma RotatedLives(c: Config)
    requires 0 < |c.ring| && AllLive(c)
    ensures AllLive(Rotated(c))
  {
    assert forall i :: 0 <= i < |c.ring| ==>
      Rotated(c).ring[i] == if i + 1 < |c.ring| then c.ring[i + 1] else c.ring[0];
  }

  lemma RotatedKeeps(m: Machine, c: Config)
    requires Inv(m, c) && c.ring[0].status != Dead
    ensures Inv(m, Rotated(c)) && AllLive(Rotated(c))
  {
    hide FutexOk, LogOk;
    var d := Rotated(c);
    assert forall i :: 0 <= i < |c.ring| ==> d.ring[i] == if i + 1 < |c.ring| then c.ring[i + 1] else c.ring[0];
    var k :| 0 <= k < |c.ring| && c.ring[k].id == MAIN_THREAD_ID;
    assert d.ring[if k == 0 then |c.ring| - 1 else k - 1].id == MAIN_THREAD_ID;
  }

  /** After a quantum that did not end the program, no dead thread is left for the scheduling loop, and
      the main thread is still there. */
  lemma YieldKeeps(m: Machine, c: Config)
    requires Inv(m, c) && !c.exiting
    ensures 0 < |Yield(c).ring| && Inv(m, Yield(c)) && AllLive(Yield(c))
  {
    if c.ring[0].status == Dead {
      hide FutexOk, LogOk;
      var d := Yield(c);
      var k :| 0 <= k < |c.ring| && c.ring[k].id == MAIN_THREAD_ID;
      assert k > 0 && d.ring[k - 1].id == MAIN_THREAD_ID;
      assert forall i :: 0 <= i < |d.ring| ==> d.ring[i] == c.ring[i + 1];
    } else {
      RotatedKeeps(m, c);
    }
  }

  lemma ExpireKeeps(m: Machine, c: Config, now: Time)
    requires Inv(m, c) && AllLive(c) && Expires(c.ring[0], now)
    ensures Inv(m, Expire(c, now)) && AllLive(Expire(c, now))
  {
    hide LogOk;
    var d := Expire(c, now);
    var e := Expired(c.ring[0].id, now);
    BlockedHasNoFutex(m, c.log, c.ring[0]);
    ReleaseOk(m, c.log, e, c.ring[0], d.ring[0]);
    OthersKeep(m, c, e);
    LogAppend(c.log, e);
    KeepsIds(m, c, d);
  }

  lemma {:induction false} SearchKeeps(m: Machine, c: Config, clock: nat -> Time, k: nat, limit: nat)
    requires Inv(m, c) && AllLive(c) && k <= limit
    ensures Inv(m, Search(c, clock, k, limit)) && AllLive(Search(c, clock, k, limit))
    decreases limit - k
  {
    if k == limit || c.ring[0].status == Running {
    } else if Expires(c.ring[0], clock(k)) {
      ExpireKeeps(m, c, clock(k));
    } else {
      hide Inv;
      RotatedKeeps(m, c) by { assert Inv(m, c); }
      SearchKeeps(m, Rotated(c), clock, k + 1, limit);
    }
  }

  /** A running thread is never passed over: the loop stops at it or at one before it, and leaves it
      that much nearer. */
  lemma {:induction false} SearchStopsAt(c: Config, clock: nat -> Time, k: nat, limit: nat, i: nat) returns (j: nat)
    requires i < |c.ring| && c.ring[i].status == Running && k + i <= limit
    ensures var d := Search(c, clock, k, limit);
      j <= i && d.ring[0].status == Running && d.ring[i - j] == c.ring[i]
    decreases limit - k
  {
    if k == limit || c.ring[0].status == Running {
      j := 0;
    } else if Expires(c.ring[0], clock(k)) {
      j := 0;
    } else {
      var n := SearchStopsAt(Rotated(c), clock, k + 1, limit, i - 1);
      j := n + 1;
    }
  }

  function Succ(i: nat, n: nat): nat {
    if i + 1 == n then 0 else i + 1
  }

  /** The position reached after `k` steps around a ring of `n`. */
  function Around(k: nat, n: nat): (r: nat)
    requires 0 < n
    ensures r < n
  {
    if k < n then k else Around(k - n, n)
  }

  lemma {:induction false} AroundStep(k: nat, n: nat)
    requires 0 < n
    ensures Around(k + 1, n) == Succ(Around(k, n), n)
  {
    if n <= k {
      AroundStep(k - n, n);
    }
  }

  /** The loop, started with its `k`th look at the clock, would stop at the `x`th thread it comes to. */
  ghost predicate Stops(c: Config, clock: nat -> Time, k: nat, x: nat)
    requires 0 < |c.ring|
  {
    var v := c.ring[Around(x, |c.ring|)];
    v.status == Running || (v.status.Blocked? && Passed(clock(k + x), v.status.deadline))
  }

  lemma StopsRotated(c: Config, clock: nat -> Time, k: nat, x: nat)
    requires 0 < |c.ring|
    ensures Stops(Rotated(c), clock, k + 1, x) == Stops(c, clock, k, x + 1)
    ensures Rotated(c).ring[Around(x, |c.ring|)] == c.ring[Around(x + 1, |c.ring|)]
  {
    AroundStep(x, |c.ring|);
    assert k + 1 + x == k + (x + 1);
  }

  /** The ring from its `j`th thread on, which has timed out if it is blocked there and the loop ended. */
  ghost predicate RotatedTo(c: Config, j: nat, ended: bool, d: Config) {
    && 0 < |c.ring| == |d.ring|
    && (forall x: nat :: 0 < x < |c.ring| ==> d.ring[x] == c.ring[Around(j + x, |c.ring|)])
    && var v := c.ring[Around(j, |c.ring|)];
       d.ring[0] == if ended && v.status != Running then v.(status := Running, futex := TimedOut) else v
  }

  lemma NotRotated(c: Config, ended: bool, d: Config)
    requires 0 < |c.ring| == |d.ring| && d.ring == c.ring[0 := d.ring[0]]
    requires var v := c.ring[0];
      d.ring[0] == if ended && v.status != Running then v.(status := Running, futex := TimedOut) else v
    ensures RotatedTo(c, 0, ended, d)
  {
  }

  lemma RotatedOnce(c: Config, j: nat, ended: bool, d: Config)
    requires 0 < |c.ring| && RotatedTo(Rotated(c), j, ended, d)
    ensures RotatedTo(c, j + 1, ended, d)
  {
    RotatedAt(c, j);
    forall x: nat | 0 < x < |c.ring|
      ensures d.ring[x] == c.ring[Around(j + 1 + x, |c.ring|)]
    {
      RotatedAt(c, j + x);
      assert j + 1 + x == j + x + 1;
    }
  }

  lemma RotatedAt(c: Config, x: nat)
    requires 0 < |c.ring|
    ensures Rotated(c).ring[Around(x, |c.ring|)] == c.ring[Around(x + 1, |c.ring|)]
  {
    AroundStep(x, |c.ring|);
  }

  /** What the loop leaves if it stops at the `j`th thread it comes to, or is watched that far. */
  ghost predicate Found(c: Config, clock: nat -> Time, k: nat, j: nat, limit: nat, d: Config)
    requires 0 < |c.ring|
  {
    && RotatedTo(c, j, k + j < limit, d)
    && d == c.(ring := d.ring, log := d.log)
    && d.log == c.log + if k + j < limit && c.ring[Around(j, |c.ring|)].status != Running
                        then [Expired(d.ring[0].id, clock(k + j))] else []
  }

  lemma FoundHere(c: Config, clock: nat -> Time, k: nat, limit: nat)
    requires 0 < |c.ring| && k <= limit && (k == limit || Stops(c, clock, k, 0))
    ensures Found(c, clock, k, 0, limit, Search(c, clock, k, limit))
  {
    NotRotated(c, k < limit, Search(c, clock, k, limit));
  }

  lemma NotHere(c: Config, clock: nat -> Time, k: nat, limit: nat)
    requires 0 < |c.ring| && k < limit && !Stops(c, clock, k, 0)
    ensures Search(c, clock, k, limit) == Search(Rotated(c), clock, k + 1, limit)
  {
    assert k + 0 == k;
  }

  lemma FoundFurther(c: Config, clock: nat -> Time, k: nat, j: nat, limit: nat, d: Config)
    requires 0 < |c.ring| && Found(Rotated(c), clock, k + 1, j, limit, d)
    ensures Found(c, clock, k, j + 1, limit, d)
  {
    RotatedOnce(c, j, k + 1 + j < limit, d);
    RotatedAt(c, j);
    assert k + 1 + j == k + (j + 1);
    hide RotatedTo, Around, Rotated;
    assert Rotated(c) == c.(ring := Rotated(c).ring);
  }

  /** The scheduling loop ends exactly when it comes to a thread that runs or whose deadline has passed,
      and picks the first such thread; otherwise it has gone on for as long as it was watched. It turns
      the ring as far as that and changes nothing but a thread that times out. */
  lemma {:induction false} SearchIsFirst(c: Config, clock: nat -> Time, k: nat, limit: nat) returns (j: nat)
    requires 0 < |c.ring| && k <= limit
    ensures k + j <= limit && (forall x: nat :: x < j ==> !Stops(c, clock, k, x))
    ensures k + j < limit ==> Stops(c, clock, k, j)
    ensures Found(c, clock, k, j, limit, Search(c, clock, k, limit))
    decreases limit - k
  {
    hide Found, Around, Passed;
    if k == limit || Stops(c, clock, k, 0) {
      j := 0;
      FoundHere(c, clock, k, limit);
    } else {
      var n := SearchIsFirst(Rotated(c), clock, k + 1, limit);
      j := n + 1;
      NotHere(c, clock, k, limit);
      FoundFurther(c, clock, k, n, limit, Search(c, clock, k, limit));
      StopsRotated(c, clock, k, n);
      forall x: nat | x < j
        ensures !Stops(c, clock, k, x)
      {
        if x > 0 {
          StopsRotated(c, clock, k, x - 1);
        }
      }
    }
  }

  // ----- whole runs -----

  /** What the outside gives one step: the readings of the clock, and how many threads the scheduling
      loop is watched for. */
  datatype Input = Input(clock: nat -> Time, limit: nat)

  /** One step of the executor: a quantum and a scheduling decision. If the loop was still looking when
      last watched, it goes on looking. */
  ghost function Step(m: Machine, c: Config, input: Input): (d: Config)
    requires 0 < |c.ring|
    ensures 0 < |d.ring|
  {
    if Ended(c) then c
    else if c.ring[0].status != Running then Search(c, input.clock, 0, input.limit)
    else
      var q := Quantum(m, c, INSTRUCTIONS_QUANTUM);
      if Ended(q) then q
      else if |Yield(q).ring| == 0 then q
      else Search(Yield(q), input.clock, 0, input.limit)
  }

  lemma StepRunning(m: Machine, c: Config, input: Input)
    requires 0 < |c.ring| && !Ended(c) && c.ring[0].status == Running
    ensures var q := Quantum(m, c, INSTRUCTIONS_QUANTUM);
      Step(m, c, input) == if Ended(q) || |Yield(q).ring| == 0 then q else Search(Yield(q), input.clock, 0, input.limit)
  {
  }

  lemma StepLooking(m: Machine, c: Config, input: Input)
    requires 0 < |c.ring| && !Ended(c) && c.ring[0].status != Running
    ensures Step(m, c, input) == Search(c, input.clock, 0, input.limit)
  {
  }

  ghost function Run(m: Machine, c: Config, inputs: seq<Input>): (d: Config)
    requires 0 < |c.ring|
    ensures 0 < |d.ring|
    decreases |inputs|
  {
    if inputs == [] then c
    else Step(m, Run(m, c, inputs[..|inputs| - 1]), inputs[|inputs| - 1])
  }

  /** What holds between steps. */
  ghost predicate Settled(m: Machine, c: Config) {
    Inv(m, c) && (Ended(c) || AllLive(c))
  }

  lemma StepKeeps(m: Machine, c: Config, input: Input)
    requires SingleAssignment(m) && Settled(m, c)
    ensures Settled(m, Step(m, c, input))
  {
    hide FutexOk, LogOk, SingleAssignment, Quantum, Search, Yield;
    if !Ended(c) {
      if c.ring[0].status != Running {
        SearchKeeps(m, c, input.clock, 0, input.limit);
      } else {
        var q := Quantum(m, c, INSTRUCTIONS_QUANTUM);
        QuantumKeeps(m, c, INSTRUCTIONS_QUANTUM);
        if !Ended(q) {
          YieldKeeps(m, q);
          SearchKeeps(m, Yield(q), input.clock, 0, input.limit);
        }
      }
    }
  }

  ghost function Initial(mem: Memory, l: Local): Config {
    Config([View(MAIN_THREAD_ID, Running, NoFutex, l)], [], mem, 1, false, 0, false)
  }

  /** Over every run: live threads have different ids, the main thread is among them, no dead thread is
      left in the ring, a thread whose futex state is set is running and still at its wait call, and every
      blocked wait that returned did so for the reason it gave. */
  lemma {:induction false} EveryRunIsSafe(m: Machine, mem: Memory, l: Local, inputs: seq<Input>)
    requires SingleAssignment(m)
    ensures Settled(m, Run(m, Initial(mem, l), inputs))
    ensures LogOk(Run(m, Initial(mem, l), inputs).log)
  {
    var c := Initial(mem, l);
    if inputs == [] {
      assert FutexOk(m, c.log, c.ring[0]);
      assert c.ring[0].id == MAIN_THREAD_ID;
    } else {
      hide FutexOk, LogOk, SingleAssignment, Step, Initial;
      assert 0 < |c.ring|;
      EveryRunIsSafe(m, mem, l, inputs[..|inputs| - 1]);
      StepKeeps(m, Run(m, c, inputs[..|inputs| - 1]), inputs[|inputs| - 1]);
    }
  }

  // ----- bounded waiting -----

  /** While no thread is created, each step brings a running thread nearer to its turn. */
  lemma StepApproaches(m: Machine, c: Config, input: Input, i: nat) returns (j: nat)
    requires SingleAssignment(m) && Settled(m, c) && c.ring[0].status == Running
    requires 0 < i < |c.ring| <= input.limit && c.ring[i].status == Running
    ensures var d := Step(m, c, input);
      Ended(d) || c.nextId < d.nextId
      || (j < i && j < |d.ring| <= |c.ring| && d.nextId == c.nextId
          && d.ring[j] == c.ring[i] && d.ring[0].status == Running)
  {
    hide Inv, SingleAssignment, Quantum, Search, Grown, Yield, AllLive;
    j := 0;
    if !Ended(c) {
      assert Inv(m, c);
      var q := Quantum(m, c, INSTRUCTIONS_QUANTUM);
      StepRunning(m, c, input);
      QuantumKeeps(m, c, INSTRUCTIONS_QUANTUM);
      QuantumGrows(m, c, INSTRUCTIONS_QUANTUM);
      if !Ended(q) {
        YieldKeeps(m, q);
        YieldShifts(c, q, i);
        if |q.ring| == |c.ring| {
          var n := SearchStopsAt(Yield(q), input.clock, 0, input.limit, i - 1);
          j := i - 1 - n;
        }
      }
    }
  }

  /** Yielding brings every other thread one place nearer. */
  lemma YieldShifts(c: Config, q: Config, i: nat)
    requires Grown(c, q) && 0 < i < |c.ring| && c.ring[i].status == Running
    ensures q.nextId - c.nextId == |q.ring| - |c.ring| >= 0
    ensures Yield(q).nextId == q.nextId && |Yield(q).ring| <= |q.ring|
    ensures var k := i + (|q.ring| - |c.ring|) - 1; k < |Yield(q).ring| && Yield(q).ring[k] == c.ring[i]
  {
    assert Calm(c.ring[i], q.ring[i + (|q.ring| - |c.ring|)]);
  }

  /** While no thread is created, a running thread gets its turn within as many steps as there are
      threads before it. */
  lemma {:induction false} BoundedWaiting(m: Machine, c: Config, inputs: seq<Input>, i: nat) returns (n: nat)
    requires SingleAssignment(m) && Settled(m, c) && c.ring[0].status == Running
    requires i < |c.ring| && c.ring[i].status == Running && i <= |inputs|
    requires forall k :: 0 <= k < |inputs| ==> |c.ring| <= inputs[k].limit
    ensures n <= i
    ensures var d := Run(m, c, inputs[..n]);
      Ended(d) || c.nextId < d.nextId || d.ring[0] == c.ring[i]
    decreases i
  {
    n := 0;
    if i > 0 {
      hide Inv, FutexOk, LogOk, SingleAssignment, Step;
      var d := Step(m, c, inputs[0]);
      var j := StepApproaches(m, c, inputs[0], i);
      StepKeeps(m, c, inputs[0]);
      RunFirst(m, c, inputs[..1]);
      assert inputs[..1][1..] == [];
      if Ended(d) || c.nextId < d.nextId {
        n := 1;
      } else {
        var r := BoundedWaiting(m, d, inputs[1..], j);
        n := r + 1;
        RunFirst(m, c, inputs[..n]);
        assert inputs[..n][1..] == inputs[1..][..r];
      }
    }
  }

  /** A run is its first step and the run from there. */
  lemma {:induction false} RunFirst(m: Machine, c: Config, inputs: seq<Input>)
    requires 0 < |c.ring| && inputs != []
    ensures Run(m, c, inputs) == Run(m, Step(m, c, inputs[0]), inputs[1..])
    decreases |inputs|
  {
    hide Step;
    if |inputs| == 1 {
      assert inputs[..0] == [];
    } else {
      var last := |inputs| - 1;
      RunFirst(m, c, inputs[..last]);
      assert inputs[..last][1..] == inputs[1..][..last - 1];
    }
  }

  // ----- the walk of a wake around the ring -----

  /** The walk has been past the first `k` threads. */
  ghost predicate WokenUpTo(vs: seq<View>, us: seq<View>, addr: nat, nwake: nat, k: nat) {
    && |us| == |vs|
    && (forall n :: 0 <= n < k && n < |vs| ==> us[n] == WakeViews(vs, addr, nwake)[n])
    && (forall n :: k <= n < |vs| ==> us[n] == vs[n])
  }

  lemma WakeStarts(vs: seq<View>, addr: nat, nwake: nat)
    requires 0 < |vs| && !WaitsOn(vs[0], addr)
    ensures WokenUpTo(vs, vs, addr, nwake, 1) && Waiters(vs[..1], addr) == 0
  {
    assert vs[..0] == [];
    WaitersStep(vs, addr, 0);
  }

  lemma WakeAdvances(vs: seq<View>, us: seq<View>, addr: nat, nwake: nat, k: nat)
    requires WokenUpTo(vs, us, addr, nwake, k) && k < |vs| && Waiters(vs[..k], addr) < nwake
    ensures us[k] == vs[k]
    ensures Waiters(vs[..k + 1], addr) == Waiters(vs[..k], addr) + if WaitsOn(us[k], addr) then 1 else 0
    ensures var woken := if WaitsOn(us[k], addr) then us[k := us[k].(status := Running, futex := Woken)] else us;
      WokenUpTo(vs, woken, addr, nwake, k + 1)
  {
    WaitersStep(vs, addr, k);
  }

  lemma WakeEnds(vs: seq<View>, us: seq<View>, addr: nat, nwake: nat, k: nat)
    requires WokenUpTo(vs, us, addr, nwake, k) && k <= |vs| && Waiters(vs[..k], addr) <= nwake
    requires k == |vs| || Waiters(vs[..k], addr) == nwake
    ensures us == WakeViews(vs, addr, nwake) && Waiters(vs[..k], addr) == Min(nwake, Waiters(vs, addr))
  {
    hide Waiters;
    forall n: nat | k <= n <= |vs|
      ensures Waiters(vs[..k], addr) <= Waiters(vs[..n], addr)
    {
      WaitersMonotone(vs, addr, k, n);
    }
    assert vs[..|vs|] == vs;
  }
}
