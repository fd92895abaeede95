/** The executor's own data structures: live threads in a circular doubly linked ring, dead ones in a
    singly linked list, and the methods that change them in place, each proved to do what the
    specification says on the sequence of live threads. */
module Threads {
  import opened Common
  import opened Futex
  import Scheduling

  datatype ThreadState = ThreadRunning | ThreadBlocked | ThreadDead

  class Thread {
    var next: Thread?
    var prev: Thread?
    var state: ThreadState
    var futex: FutexState
    var id: nat
    var waitAddr: nat
    var hasTimeout: bool
    var timeoutSec: nat
    var timeoutUsec: nat
    var local: Local

    constructor (id: nat, local: Local)
      ensures this.id == id && this.local == local && state == ThreadRunning && futex == NoFutex
    {
      next, prev, state, futex := null, null, ThreadRunning, NoFutex;
      waitAddr, hasTimeout, timeoutSec, timeoutUsec := 0, false, 0, 0;
      this.id, this.local := id, local;
    }

    ghost function Status(): Status
      reads this
    {
      match state
      case ThreadRunning => Running
      case ThreadBlocked => Blocked(waitAddr, if hasTimeout then Until(Time(timeoutSec, timeoutUsec)) else Never)
      case ThreadDead => Dead
    }

    predicate Due(now: Time)
      reads this
    {
      hasTimeout && (now.sec > timeoutSec || (now.sec == timeoutSec && now.usec > timeoutUsec))
    }

    ghost function Seen(): View
      reads this
    {
      View(id, Status(), futex, local)
    }
  }

  ghost function ViewsOf(s: seq<Thread>): (vs: seq<View>)
    reads s
    ensures |vs| == |s| && forall i :: 0 <= i < |s| ==> vs[i] == s[i].Seen()
  {
    seq(|s|, i requires 0 <= i < |s| reads s => s[i].Seen())
  }

  class Executor {
    const machine: Machine
    const startThread: Thread
    var deadThreads: Thread?
    var nextThreadId: nat
    var mem: Memory
    var exiting: bool
    var exitCode: int
    var failed: bool

    /** The live threads in ring order, the current thread first. */
    ghost var ring: seq<Thread>
    /** The dead threads in list order. */
    ghost var dead: seq<Thread>
    /** Every thread ever allocated. */
    ghost var all: set<Thread>
    /** What has happened to waiting threads. */
    ghost var log: seq<Event>

    /** next and prev are inverse and lead around the ring. */
    ghost predicate RingLinked()
      reads this`ring, this`all, all`next, all`prev
    {
      && 0 < |ring|
      && (forall i :: 0 <= i < |ring| ==> ring[i] in all)
      && (forall i, j :: 0 <= i < |ring| && 0 <= j < |ring| && j == i + 1 ==>
        ring[i].next == ring[j] && ring[j].prev == ring[i])
      && ring[|ring| - 1].next == ring[0] && ring[0].prev == ring[|ring| - 1]
    }

    /** The dead list ends, and does not come back to itself. */
    ghost predicate DeadLinked()
      reads this`dead, this`deadThreads, this`all, all`next
    {
      && (forall i :: 0 <= i < |dead| ==> dead[i] in all)
      && (forall i, j :: 0 <= i < j < |dead| ==> dead[i] != dead[j])
      && deadThreads == (if dead == [] then null else dead[0])
      && (forall i, j :: 0 <= i < |dead| && 0 <= j < |dead| && j == i + 1 ==> dead[i].next == dead[j])
      && (dead != [] ==> dead[|dead| - 1].next == null)
    }

    /** Ring and dead list together are every thread ever allocated, and share none. */
    ghost predicate Partitioned()
      reads this`ring, this`dead, this`all
    {
      && (forall i :: 0 <= i < |ring| ==> ring[i] in all)
      && (forall t :: t in all ==> t in ring || t in dead)
      && (forall t :: t in ring ==> t !in dead)
      && (forall i, j :: 0 <= i < j < |ring| ==> ring[i] != ring[j])
      && startThread in ring
    }

    ghost predicate Linked()
      reads this`ring, this`dead, this`deadThreads, this`all, all`next, all`prev
    {
      RingLinked() && DeadLinked() && Partitioned()
    }

    lemma NextInRing(k: nat)
      requires RingLinked() && k < |ring|
      ensures ring[k].next == ring[if k + 1 == |ring| then 0 else k + 1]
    {
    }

    lemma RingFacts()
      requires RingLinked() && Partitioned()
      ensures 0 < |ring| && (forall n :: 0 <= n < |ring| ==> ring[n] in all)
      ensures (forall n :: 0 < n < |ring| ==> ring[n] != ring[0])
    {
    }

    lemma LinkedFacts()
      requires Linked()
      ensures 0 < |ring| && (forall n :: 0 <= n < |ring| ==> ring[n] in all)
      ensures (forall n :: 0 < n < |ring| ==> ring[n] != ring[0])
    {
    }

    /** The live threads and the rest of the state, as the specification sees them. */
    ghost function Abs(): Scheduling.Config
      reads this, ring
    {
      Scheduling.Config(ViewsOf(ring), log, mem, nextThreadId, exiting, exitCode, failed)
    }

    ghost predicate Valid()
      reads this, ring, all
    {
      && SingleAssignment(machine)
      && Linked()
      && Scheduling.Inv(machine, Abs())
      && startThread.id == Scheduling.MAIN_THREAD_ID
    }

    constructor (m: Machine, memory: Memory, local: Local)
      requires SingleAssignment(m)
      ensures Valid() && fresh(all) && machine == m && Abs() == Scheduling.Initial(memory, local)
      ensures ring == [startThread] && dead == []
    {
      machine, mem, exiting, exitCode, failed := m, memory, false, 0, false;
      var t := new Thread(Scheduling.MAIN_THREAD_ID, local);
      startThread := t;
      deadThreads := null;
      nextThreadId := 1;
      ring, dead, all, log := [t], [], {t}, [];
      new;
      t.next, t.prev := t, t;
      Scheduling.EveryRunIsSafe(m, memory, local, []);
      assert Abs() == Scheduling.Initial(memory, local);
    }

    // ----- calls of builtins -----

    /** Store the result of a builtin call, and step past the call unless it stopped the thread. */
    method Finish(t: Thread, r: nat)
      requires Linked() && t == ring[0]
      modifies t`local
      ensures Abs() == Scheduling.Finish(machine, old(Abs()), r)
    {
      t.local := machine.store(t.local, r);
      if t.state == ThreadRunning {
        t.local := machine.advance(t.local);
      }
    }

    /** What a wait does when its word still has the expected value. */
    method Block(t: Thread, addr: nat, abstime: nat, ghost value: nat)
      requires Linked() && t == ring[0] && t.futex == NoFutex
      modifies this`log, t`state, t`waitAddr, t`hasTimeout, t`timeoutSec, t`timeoutUsec
      ensures log == old(log) +
        [BlockedOn(t.id, addr, ReadDeadline(machine, mem, abstime), machine.load32(mem, addr), value)]
      ensures ViewsOf(ring) ==
        old(ViewsOf(ring))[0 := old(t.Seen()).(status := Blocked(addr, ReadDeadline(machine, mem, abstime)))]
    {
      hide RingLinked, DeadLinked;
      ghost var vs := ViewsOf(ring);
      t.waitAddr := addr;
      if abstime != 0 {
        t.hasTimeout := true;
        t.timeoutSec := machine.load64(mem, abstime);
        t.timeoutUsec := machine.load32(mem, abstime + 8) / NANOSECONDS_IN_A_MICROSECOND;
      } else {
        t.hasTimeout, t.timeoutSec, t.timeoutUsec := false, 0, 0;
      }
      t.state := ThreadBlocked;
      log := log + [BlockedOn(t.id, addr, ReadDeadline(machine, mem, abstime), machine.load32(mem, addr), value)];
      assert t.Status() == Blocked(addr, ReadDeadline(machine, mem, abstime));
      hide ReadDeadline, Thread.Status;
      assert forall n :: 0 < n < |ring| ==> ring[n].Seen() == vs[n];
    }

    /** FUTEX_WAIT_ABS */
    method WaitAbs(t: Thread, addr: nat, value: nat, abstime: nat) returns (r: nat)
      requires Linked() && t == ring[0]
      modifies this`log, t`state, t`futex, t`waitAddr, t`hasTimeout, t`timeoutSec, t`timeoutUsec
      ensures (Abs(), r) == Scheduling.WaitStep(machine, old(Abs()), addr, value, abstime)
    {
      hide RingLinked, DeadLinked;
      match t.futex
      case NoFutex =>
        if machine.load32(mem, addr) != value {
          log := log + [Refused(t.id, addr, machine.load32(mem, addr), value)];
          return EAGAIN;
        }
        Block(t, addr, abstime, value);
        r := 0;
      case TimedOut =>
        t.futex := NoFutex;
        r := ETIMEDOUT;
        log := log + [Returned(t.id, r)];
        assert ViewsOf(ring) == old(ViewsOf(ring))[0 := t.Seen()];
      case Woken =>
        t.futex := NoFutex;
        r := SUCCESS;
        log := log + [Returned(t.id, r)];
        assert ViewsOf(ring) == old(ViewsOf(ring))[0 := t.Seen()];
    }

    /** Wake one waiter, the `k`th in the ring. */
    method Rouse(i: Thread, ghost k: nat)
      requires Partitioned() && k < |ring| && i == ring[k]
      modifies i`state, i`futex
      ensures ViewsOf(ring) == old(ViewsOf(ring))[k := old(i.Seen()).(status := Running, futex := Woken)]
    {
      ghost var vs := ViewsOf(ring);
      i.state := ThreadRunning;
      i.futex := Woken;
      assert forall n :: 0 <= n < |ring| && n != k ==> ring[n].Seen() == vs[n];
    }

    /** One turn of the loop of FUTEX_WAKE: wake the `k`th thread if it waits on `addr`. */
    method WakeOne(i: Thread, addr: nat, woken: nat, ghost vs: seq<View>, ghost nwake: nat, ghost k: nat)
      returns (now: nat)
      requires Partitioned() && k < |ring| == |vs| && i == ring[k]
      requires Scheduling.WokenUpTo(vs, ViewsOf(ring), addr, nwake, k)
      requires woken == Scheduling.Waiters(vs[..k], addr) < nwake
      modifies i`state, i`futex
      ensures Scheduling.WokenUpTo(vs, ViewsOf(ring), addr, nwake, k + 1)
      ensures now == Scheduling.Waiters(vs[..k + 1], addr) <= nwake
    {
      hide Scheduling.Waiters, Scheduling.WakeViews, Scheduling.WokenUpTo;
      Scheduling.WakeAdvances(vs, ViewsOf(ring), addr, nwake, k);
      now := woken;
      if i.state == ThreadBlocked && i.waitAddr == addr {
        Rouse(i, k);
        now := woken + 1;
      }
    }

    /** The loop of FUTEX_WAKE: walk the ring from the next thread on. */
    method WakeLoop(t: Thread, addr: nat, nwake: nat, ghost vs: seq<View>) returns (woken: nat, ghost k: nat)
      requires RingLinked() && Partitioned() && 0 < |ring| && t == ring[0] && vs == ViewsOf(ring)
      requires Scheduling.WokenUpTo(vs, vs, addr, nwake, 1) && Scheduling.Waiters(vs[..1], addr) == 0
      modifies all`state, all`futex
      ensures k <= |vs| && woken == Scheduling.Waiters(vs[..k], addr) <= nwake
      ensures k == |vs| || woken == nwake
      ensures Scheduling.WokenUpTo(vs, ViewsOf(ring), addr, nwake, k)
    {
      hide *;
      RingFacts();
      NextInRing(0);
      woken, k := 0, 1;
      var i := t.next;
      while i != t && woken < nwake
        invariant 1 <= k <= |ring| && i == ring[if k == |ring| then 0 else k]
        invariant woken == Scheduling.Waiters(vs[..k], addr) <= nwake
        invariant Scheduling.WokenUpTo(vs, ViewsOf(ring), addr, nwake, k)
        decreases |ring| - k
      {
        NextInRing(k);
        woken := WakeOne(i, addr, woken, vs, nwake, k);
        i := i.next;
        k := k + 1;
      }
    }

    /** FUTEX_WAKE, up to writing the count. */
    method WakeWaiters(t: Thread, addr: nat, nwake: nat) returns (woken: nat)
      requires Linked() && t == ring[0] && t.state != ThreadBlocked
      modifies all`state, all`futex
      ensures woken == Min(nwake, Scheduling.Waiters(old(ViewsOf(ring)), addr))
      ensures ViewsOf(ring) == Scheduling.WakeViews(old(ViewsOf(ring)), addr, nwake)
    {
      ghost var vs := ViewsOf(ring);
      assert !Scheduling.WaitsOn(vs[0], addr);
      hide RingLinked, DeadLinked, Partitioned;
      RingFacts();
      Scheduling.WakeStarts(vs, addr, nwake);
      ghost var k: nat;
      woken, k := WakeLoop(t, addr, nwake, vs);
      Scheduling.WakeEnds(vs, ViewsOf(ring), addr, nwake, k);
    }

    /** FUTEX_WAKE */
    method Wake(t: Thread, addr: nat, nwake: nat, count: nat)
      requires Linked() && t == ring[0] && t.state != ThreadBlocked
      modifies this`log, this`mem, all`state, all`futex
      ensures Abs() == Scheduling.WakeStep(machine, old(Abs()), addr, nwake, count)
    {
      hide DeadLinked, RingLinked, Partitioned;
      RingFacts();
      var woken := WakeWaiters(t, addr, nwake);
      mem := machine.store32(mem, count, woken);
      log := log + [WokeUp(t.id, addr, Scheduling.WokenIds(old(ViewsOf(ring)), addr, nwake))];
    }

    // ----- creating threads -----

    /** `t` is the one thread that is neither in the ring nor dead. */
    ghost predicate Spare(t: Thread)
      reads this`ring, this`dead, this`all
    {
      && t in all && t !in ring && t !in dead
      && (forall i :: 0 <= i < |ring| ==> ring[i] in all)
      && (forall u :: u in all ==> u in ring || u in dead || u == t)
      && (forall u :: u in ring ==> u !in dead)
      && (forall i, j :: 0 <= i < j < |ring| ==> ring[i] != ring[j])
      && startThread in ring
    }

    /** A thread to start: the first of the dead list, or a new one. */
    method TakeThread() returns (t: Thread)
      requires Linked()
      modifies this`deadThreads, this`dead, this`all
      ensures RingLinked() && DeadLinked() && fresh(all - old(all)) && old(all) <= all && Spare(t)
      ensures dead == if old(dead) == [] then [] else old(dead)[1..]
      ensures old(dead) == [] ==> fresh(t)
    {
      if deadThreads != null {
        t := deadThreads;
        deadThreads := t.next;
        dead := dead[1..];
      } else {
        t := new Thread(0, 0);
        all := all + {t};
      }
    }

    method Begin(t: Thread, func: nat, stack: nat, tls: nat)
      requires Spare(t)
      modifies this`nextThreadId, t`id, t`state, t`futex, t`local
      ensures nextThreadId == old(nextThreadId) + 1
      ensures t.Seen() == View(old(nextThreadId), Running, NoFutex, machine.begin(func, stack, tls))
      ensures ViewsOf(ring) == old(ViewsOf(ring)) && startThread.id == old(startThread.id)
    {
      ghost var vs := ViewsOf(ring);
      t.id := nextThreadId;
      nextThreadId := nextThreadId + 1;
      t.state := ThreadRunning;
      t.futex := NoFutex;
      t.local := machine.begin(func, stack, tls);
      assert forall i :: 0 <= i < |ring| ==> ring[i].Seen() == vs[i];
    }

    lemma SpareFacts(t: Thread)
      requires Spare(t)
      ensures t in all && (forall i :: 0 <= i < |ring| ==> ring[i] in all && ring[i] != t)
      ensures forall i, j :: 0 <= i < j < |ring| ==> ring[i] != ring[j]
    {
    }

    /** Put `t` into the ring behind the current thread `c`. */
    method LinkBehind(c: Thread, t: Thread)
      requires RingLinked() && DeadLinked() && Spare(t) && c == ring[0]
      modifies this`ring, all`next, all`prev
      ensures RingLinked() && ring == [c, t] + old(ring)[1..]
      ensures forall u :: u in all && u !in ring ==> u.next == old(u.next)
    {
      hide DeadLinked, Spare;
      SpareFacts(t);
      ghost var r := [c, t] + ring[1..];
      assert forall i :: 2 <= i < |r| ==> r[i] == ring[i - 1];
      assert c.next == ring[if |ring| == 1 then 0 else 1];
      t.next := c.next;
      t.prev := c;
      c.next.prev := t;
      c.next := t;
      ring := r;
    }

    twostate lemma DeadKept()
      requires old(DeadLinked()) && dead == old(dead) && deadThreads == old(deadThreads) && all == old(all)
      requires forall i :: 0 <= i < |dead| ==> dead[i].next == old(dead[i].next)
      ensures DeadLinked()
    {
    }

    lemma NoneSpare(before: seq<Thread>, t: Thread)
      requires 0 < |before| && ring == [before[0], t] + before[1..]
      requires t in all && t !in before && t !in dead
      requires forall i :: 0 <= i < |before| ==> before[i] in all
      requires forall u :: u in all ==> u in before || u in dead || u == t
      requires forall u :: u in before ==> u !in dead
      requires forall i, j :: 0 <= i < j < |before| ==> before[i] != before[j]
      requires startThread in before
      ensures Partitioned()
    {
      assert ring[0] == before[0] && ring[1] == t;
      assert forall i :: 2 <= i < |ring| ==> ring[i] == before[i - 1];
      forall u | u in before
        ensures u in ring
      {
        var i :| 0 <= i < |before| && before[i] == u;
        assert ring[if i == 0 then 0 else i + 1] == u;
      }
    }

    lemma ViewsOfInserted(before: seq<Thread>, t: Thread)
      requires 0 < |before| && ring == [before[0], t] + before[1..]
      ensures ViewsOf(ring) == [ViewsOf(before)[0], t.Seen()] + ViewsOf(before)[1..]
    {
      assert forall i :: 2 <= i < |ring| ==> ring[i] == before[i - 1];
    }

    method InsertLinks(c: Thread, t: Thread)
      requires RingLinked() && DeadLinked() && Spare(t) && c == ring[0]
      modifies this`ring, all`next, all`prev
      ensures Linked() && ring == [c, t] + old(ring)[1..]
    {
      ghost var before := ring;
      LinkBehind(c, t);
      NoneSpare(before, t);
      hide RingLinked, Partitioned;
      DeadKept() by {
        hide DeadLinked;
        assert forall i :: 0 <= i < |dead| ==> dead[i] in all && dead[i] !in ring;
      }
    }

    /** Linking keeps the dead list, leaves no thread spare, and changes nothing else. */
    method Insert(c: Thread, t: Thread)
      requires RingLinked() && DeadLinked() && Spare(t) && 0 < |ring| && c == ring[0]
      modifies this`ring, all`next, all`prev
      ensures Linked() && ring == [c, t] + old(ring)[1..]
      ensures ViewsOf(ring) == [old(ViewsOf(ring))[0], old(t.Seen())] + old(ViewsOf(ring))[1..]
    {
      ghost var before := ring;
      ghost var vs := ViewsOf(ring);
      hide RingLinked, DeadLinked, Partitioned, Spare;
      InsertLinks(c, t);
      ViewsOfInserted(before, t);
      assert forall i :: 0 <= i < |before| ==> before[i].Seen() == vs[i];
      assert ViewsOf(before) == vs;
    }

    /** The thread to start, with its id and its first call. */
    method NewThread(func: nat, stack: nat, tls: nat) returns (t: Thread)
      requires Linked()
      modifies this`deadThreads, this`dead, this`all, this`nextThreadId, all
      ensures RingLinked() && DeadLinked() && fresh(all - old(all)) && old(all) <= all && Spare(t)
      ensures nextThreadId == old(nextThreadId) + 1
      ensures t.Seen() == View(old(nextThreadId), Running, NoFutex, machine.begin(func, stack, tls))
      ensures ViewsOf(ring) == old(ViewsOf(ring)) && startThread.id == old(startThread.id)
    {
      hide *;
      t := TakeThread();
      Begin(t, func, stack, tls);
    }

    /** THREAD_CREATE */
    method CreateThread(c: Thread, func: nat, stack: nat, tls: nat)
      requires Linked() && c == ring[0]
      modifies this`ring, this`dead, this`deadThreads, this`all, this`nextThreadId, all
      ensures Linked() && fresh(all - old(all)) && old(all) <= all
      ensures |ring| == |old(ring)| + 1 && ring == [c, ring[1]] + old(ring)[1..]
      ensures startThread.id == old(startThread.id)
      ensures Abs() == Scheduling.CreateStep(machine, old(Abs()), func, stack, tls)
    {
      hide RingLinked, DeadLinked, Partitioned, Spare, Thread.Seen;
      RingFacts();
      var t := NewThread(func, stack, tls);
      Insert(c, t);
    }

    // ----- one instruction -----

    /** The current thread stops for good. */
    method Die(t: Thread)
      requires Linked() && 0 < |ring| && t == ring[0]
      modifies t`state
      ensures Abs() == old(Abs()).(ring := old(Abs()).ring[0 := old(Abs()).ring[0].(status := Dead)])
    {
      hide Linked;
      LinkedFacts();
      ghost var vs := ViewsOf(ring);
      t.state := ThreadDead;
      assert forall n :: 0 < n < |ring| ==> ring[n].Seen() == vs[n];
    }

    lemma StartThreadIsMain(t: Thread)
      requires Valid() && t in ring
      ensures t == startThread <==> t.id == Scheduling.MAIN_THREAD_ID
    {
      var i :| 0 <= i < |ring| && ring[i] == t;
      var j :| 0 <= j < |ring| && ring[j] == startThread;
      assert Abs().ring[i].id == t.id && Abs().ring[j].id == startThread.id;
    }

    /** THREAD_EXIT: fails on the main thread. */
    method ExitThread(t: Thread, flag: nat)
      requires Linked() && 0 < |ring| && t == ring[0] && (t == startThread <==> t.id == Scheduling.MAIN_THREAD_ID)
      modifies this`mem, this`failed, t`state, t`local
      ensures Abs() == Scheduling.ExitThreadStep(machine, old(Abs()), flag)
    {
      hide Linked, ViewsOf, Thread.Status;
      LinkedFacts();
      assert Abs().ring[0].id == t.id;
      if t == startThread {
        failed := true;
        return;
      }
      Die(t);
      if flag != 0 {
        mem := machine.store32(mem, flag, 0);
      }
      Finish(t, 0);
    }

    /** Returning from the top frame of a thread. */
    method ReturnFromTop(t: Thread, code: int)
      requires Linked() && 0 < |ring| && t == ring[0] && (t == startThread <==> t.id == Scheduling.MAIN_THREAD_ID)
      modifies this`exiting, this`exitCode, t`state
      ensures Abs() == Scheduling.ReturnStep(machine, old(Abs()), code)
    {
      hide Linked, ViewsOf, Thread.Status;
      LinkedFacts();
      assert Abs().ring[0].id == t.id;
      Die(t);
      if t == startThread {
        exitCode := code;
        exiting := true;
      }
    }

    /** BASIC_EXIT */
    method ExitProcess(t: Thread, code: int)
      requires Linked() && 0 < |ring| && t == ring[0]
      modifies this`exiting, this`exitCode, t`state, t`local
      ensures Abs() == Scheduling.ExitProcessStep(machine, old(Abs()), code)
    {
      hide Linked, ViewsOf, Thread.Status;
      LinkedFacts();
      exitCode := code;
      exiting := true;
      Die(t);
      Finish(t, 0);
    }

    /** The trap instruction. */
    method Trap(t: Thread)
      requires Linked() && 0 < |ring| && t == ring[0]
      modifies this`exiting, this`exitCode, t`state
      ensures Abs() == Scheduling.TrapStep(old(Abs()))
    {
      hide Linked, ViewsOf, Thread.Status;
      LinkedFacts();
      exitCode := -1;
      exiting := true;
      Die(t);
    }

    /** Anything else the current thread executes. */
    method Execute(t: Thread)
      requires Linked() && 0 < |ring| && t == ring[0]
      modifies this`mem, t`local
      ensures Abs() == Scheduling.OtherStep(machine, old(Abs()))
    {
      hide Linked;
      LinkedFacts();
      ghost var vs := ViewsOf(ring);
      t.local, mem := machine.exec(t.local, mem).0, machine.exec(t.local, mem).1;
      assert forall n :: 0 < n < |ring| ==> ring[n].Seen() == vs[n];
    }

    /** pn_thread_execute_instruction, as far as it concerns threads. */
    method Dispatch(t: Thread)
      requires Linked() && 0 < |ring| && t == ring[0] && t.state == ThreadRunning
      requires t == startThread <==> t.id == Scheduling.MAIN_THREAD_ID
      modifies this, all
      ensures Linked() && fresh(all - old(all)) && old(all) <= all && t == ring[0]
      ensures startThread.id == old(startThread.id)
      ensures Abs() == Scheduling.Instruction(machine, old(Abs()))
    {
      hide *;
      LinkedFacts();
      AbsFacts();
      Scheduling.InstructionIs(machine, Abs());
      match machine.decode(t.local)
      case Wait(addr, value, abstime) =>
        var r := WaitAbs(t, addr, value, abstime);
        Finish(t, r);
      case Wake(addr, nwake, count) =>
        Wake(t, addr, nwake, count);
        Finish(t, 0);
      case Create(func, stack, tls) =>
        CreateThread(t, func, stack, tls);
        Finish(t, 0);
      case ExitThread(flag) => ExitThread(t, flag);
      case ExitProcess(code) => ExitProcess(t, code);
      case Trap => Trap(t);
      case ReturnFromTop(code) => ReturnFromTop(t, code);
      case Other => Execute(t);
    }

    lemma AbsFacts()
      requires 0 < |ring|
      ensures |Abs().ring| == |ring| && Abs().ring[0] == ring[0].Seen() && ring[0].Seen().local == ring[0].local
    {
    }

    lemma ValidParts()
      requires Valid()
      ensures SingleAssignment(machine) && Linked() && Scheduling.Inv(machine, Abs())
      ensures startThread.id == Scheduling.MAIN_THREAD_ID
      ensures 0 < |ring| && ring[0] in ring && |Abs().ring| == |ring| && Abs().ring[0] == ring[0].Seen()
    {
    }

    lemma PartsValid()
      requires SingleAssignment(machine) && Linked() && Scheduling.Inv(machine, Abs())
      requires startThread.id == Scheduling.MAIN_THREAD_ID
      ensures Valid()
    {
    }

    method RunInstruction(t: Thread)
      requires Valid() && t == ring[0] && t.state == ThreadRunning
      modifies this, all
      ensures Valid() && fresh(all - old(all)) && old(all) <= all && t == ring[0]
      ensures Abs() == Scheduling.Instruction(machine, old(Abs()))
    {
      assert t.Seen().status == Running;
      hide *;
      ValidParts();
      StartThreadIsMain(t);
      Scheduling.InstructionKeeps(machine, Abs());
      Dispatch(t);
      PartsValid();
    }

    // ----- a quantum -----

    method RunQuantum(t: Thread)
      requires Valid() && 0 < |ring| && t == ring[0]
      modifies this, all
      ensures Valid() && fresh(all - old(all)) && old(all) <= all && 0 < |ring| && t == ring[0]
      ensures Abs() == Scheduling.Quantum(machine, old(Abs()), Scheduling.INSTRUCTIONS_QUANTUM)
    {
      hide *;
      ValidParts();
      var i := 0;
      while i < Scheduling.INSTRUCTIONS_QUANTUM && t.state == ThreadRunning && !failed
        invariant 0 <= i <= Scheduling.INSTRUCTIONS_QUANTUM
        invariant Valid() && fresh(all - old(all)) && old(all) <= all && 0 < |ring| && t == ring[0]
        invariant 0 < |Abs().ring| && 0 < |old(Abs()).ring|
        invariant Scheduling.Quantum(machine, Abs(), Scheduling.INSTRUCTIONS_QUANTUM - i)
          == Scheduling.Quantum(machine, old(Abs()), Scheduling.INSTRUCTIONS_QUANTUM)
      {
        QuantumGoesOn(Scheduling.INSTRUCTIONS_QUANTUM - i);
        RunInstruction(t);
        ValidParts();
        i := i + 1;
      }
      QuantumEnds(Scheduling.INSTRUCTIONS_QUANTUM - i);
    }

    lemma QuantumGoesOn(n: nat)
      requires Valid() && 0 < n && 0 < |ring| && ring[0].state == ThreadRunning && !failed && 0 < |Abs().ring|
      ensures Scheduling.Quantum(machine, Abs(), n) ==
        Scheduling.Quantum(machine, Scheduling.Instruction(machine, Abs()), n - 1)
    {
    }

    lemma QuantumEnds(n: nat)
      requires Valid() && 0 < |ring| && (n == 0 || ring[0].state != ThreadRunning || failed) && 0 < |Abs().ring|
      ensures Scheduling.Quantum(machine, Abs(), n) == Abs()
    {
    }

    // ----- on to the next thread -----

    /** Take the dead current thread out of the ring and put it at the head of the dead list. */
    method Unlink(t: Thread)
      requires RingLinked() && DeadLinked() && Partitioned() && 1 < |ring| && t == ring[0] && t != startThread
      modifies this`ring, this`dead, this`deadThreads, all`next, all`prev
      ensures RingLinked() && ring == old(ring)[1..] && dead == [t] + old(dead)
      ensures deadThreads == t && t.next == old(deadThreads)
      ensures forall u :: u in all && u in old(dead) ==> u.next == old(u.next)
    {
      ghost var r := ring[1..];
      assert forall i :: 0 <= i < |r| ==> r[i] == ring[i + 1];
      assert t.prev == r[|r| - 1] && t.next == r[0];
      t.prev.next := t.next;
      t.next.prev := t.prev;
      t.next := deadThreads;
      t.prev := null;
      deadThreads := t;
      ring := r;
      dead := [t] + dead;
    }

    lemma FirstNext()
      requires Linked()
      ensures 0 < |ring| && ring[0] in all && ring[0].next == ring[if 1 == |ring| then 0 else 1]
    {
    }

    /** A current thread that is dead while the program runs is not the main thread, so it is not alone. */
    lemma StartThreadLives()
      requires Valid() && !exiting && 0 < |ring| && ring[0].state == ThreadDead
      ensures 1 < |ring| && ring[0] != startThread
    {
      assert Abs().ring[0] == ring[0].Seen();
    }

    ghost method RotateLinks()
      requires Linked()
      modifies this`ring
      ensures Linked() && 0 < |ring| == |old(ring)| && ring == old(ring)[1..] + [old(ring)[0]]
    {
      ghost var r := ring[1..] + [ring[0]];
      assert forall i :: 0 <= i < |ring| ==> r[i] == if i + 1 < |ring| then ring[i + 1] else ring[0];
      ring := r;
    }

    /** Rotating the view of the ring changes no link. */
    ghost method Rotate()
      requires Linked()
      modifies this`ring
      ensures Linked() && 0 < |ring| == |old(ring)| && ring == old(ring)[1..] + [old(ring)[0]]
      ensures 0 < |old(Abs()).ring| && Abs() == Scheduling.Rotated(old(Abs()))
    {
      hide Linked;
      ghost var before := ring;
      RotateLinks();
      assert forall i :: 0 <= i < |ring| ==> ring[i] == if i + 1 < |ring| then before[i + 1] else before[0];
      assert ViewsOf(ring) == ViewsOf(before)[1..] + [ViewsOf(before)[0]];
    }

    twostate lemma DeadGrown(t: Thread)
      requires old(DeadLinked()) && dead == [t] + old(dead) && deadThreads == t && t.next == old(deadThreads)
      requires all == old(all)
      requires t in all && t !in old(dead)
      requires forall u :: u in old(dead) ==> u.next == old(u.next)
      ensures DeadLinked()
    {
      assert forall i :: 1 <= i < |dead| ==> dead[i] == old(dead)[i - 1];
    }

    lemma StillPartitioned(before: seq<Thread>, dead0: seq<Thread>)
      requires 1 < |before| && ring == before[1..] && dead == [before[0]] + dead0
      requires forall i :: 0 <= i < |before| ==> before[i] in all
      requires forall u :: u in all ==> u in before || u in dead0
      requires forall u :: u in before ==> u !in dead0
      requires forall i, j :: 0 <= i < j < |before| ==> before[i] != before[j]
      requires startThread in before && startThread != before[0]
      ensures Partitioned()
    {
      assert forall i :: 0 <= i < |ring| ==> ring[i] == before[i + 1];
      forall u | u in before && u != before[0]
        ensures u in ring
      {
        var i :| 0 <= i < |before| && before[i] == u;
        assert ring[i - 1] == u;
      }
    }

    method BuryLinks(t: Thread)
      requires Linked() && 1 < |ring| && t == ring[0] && t != startThread
      modifies this`ring, this`dead, this`deadThreads, all`next, all`prev
      ensures Linked() && ring == old(ring)[1..] && dead == [t] + old(dead)
    {
      ghost var before, dead0 := ring, dead;
      Unlink(t);
      StillPartitioned(before, dead0);
      hide RingLinked, Partitioned;
      DeadGrown(t);
    }

    /** Unlinking a dead thread keeps everything linked and changes no other thread. */
    method Bury(t: Thread)
      requires Linked() && 1 < |ring| && t == ring[0] && t != startThread
      modifies this`ring, this`dead, this`deadThreads, all`next, all`prev
      ensures Linked() && ring == old(ring)[1..] && dead == [t] + old(dead)
      ensures ViewsOf(ring) == old(ViewsOf(ring))[1..]
    {
      hide Linked;
      ghost var before := ring;
      ghost var vs := ViewsOf(ring);
      BuryLinks(t);
      assert forall i :: 0 <= i < |before| ==> before[i].Seen() == vs[i];
      assert forall i :: 0 <= i < |ring| ==> ring[i] == before[i + 1];
    }

    /** The next thread after a quantum; a dead current thread leaves the ring. */
    method NextThread(t: Thread) returns (next: Thread)
      requires Valid() && 0 < |ring| && t == ring[0] && !exiting
      modifies this`ring, this`dead, this`deadThreads, all`next, all`prev
      ensures Linked() && 0 < |ring| && next == ring[0]
      ensures Abs() == Scheduling.Yield(old(Abs()))
    {
      hide Valid, Linked, ViewsOf, SingleAssignment, Scheduling.Inv;
      ValidParts();
      FirstNext();
      next := t.next;
      if t.state == ThreadDead {
        StartThreadLives();
        Bury(t);
      } else {
        Rotate();
      }
    }

    // ----- the scheduling loop -----

    /** The wait of the current thread has timed out: let it run its call again. */
    method TimeOut(t: Thread, now: Time)
      requires Linked() && 0 < |ring| && t == ring[0]
      modifies this`log, t`state, t`futex
      ensures Abs() == Scheduling.Expire(old(Abs()), now)
    {
      hide Linked;
      LinkedFacts();
      ghost var vs := ViewsOf(ring);
      t.state := ThreadRunning;
      t.futex := TimedOut;
      log := log + [Expired(t.id, now)];
      assert forall n :: 0 < n < |ring| ==> ring[n].Seen() == vs[n];
    }

    /** Schedule the next thread, coming to `limit` threads at most and reading the clock once at each
        blocked one. The loop has ended if the thread it stands at runs. */
    method Schedule(t: Thread, clock: nat -> Time, limit: nat) returns (next: Thread)
      requires Linked() && 0 < |ring| && t == ring[0]
      requires 0 < |Abs().ring| && Scheduling.AllLive(Abs())
      modifies this`ring, this`log, all`state, all`futex
      ensures Linked() && 0 < |ring| && next == ring[0] && 0 < |old(Abs()).ring|
      ensures Abs() == Scheduling.Search(old(Abs()), clock, 0, limit)
    {
      hide *;
      next := t;
      var k := 0;
      while k < limit && next.state != ThreadRunning
        invariant 0 <= k <= limit && Linked() && 0 < |ring| && next == ring[0]
        invariant 0 < |Abs().ring| && Scheduling.AllLive(Abs())
        invariant Scheduling.Search(Abs(), clock, k, limit) == Scheduling.Search(old(Abs()), clock, 0, limit)
      {
        LinkedFacts();
        FirstNext();
        SearchIs(clock, k, limit);
        var now := clock(k);
        if next.Due(now) {
          TimeOut(next, now);
          return;
        }
        Scheduling.RotatedLives(Abs());
        next := next.next;
        Rotate();
        k := k + 1;
      }
      SearchIs(clock, k, limit);
    }

    /** What the scheduling loop does at the current thread, which is never dead. */
    lemma SearchIs(clock: nat -> Time, k: nat, limit: nat)
      requires 0 < |ring| && 0 < |Abs().ring| && k <= limit && Scheduling.AllLive(Abs())
      ensures ring[0].state != ThreadDead
      ensures k == limit || ring[0].state == ThreadRunning ==> Scheduling.Search(Abs(), clock, k, limit) == Abs()
      ensures k < limit && ring[0].state == ThreadBlocked ==>
        Scheduling.Search(Abs(), clock, k, limit) ==
        if ring[0].Due(clock(k)) then Scheduling.Expire(Abs(), clock(k))
        else Scheduling.Search(Scheduling.Rotated(Abs()), clock, k + 1, limit)
    {
      assert Abs().ring[0] == ring[0].Seen();
    }

    // ----- one step -----

    lemma YieldIsLive()
      requires Valid() && !exiting
      ensures 0 < |Abs().ring|
      ensures var y := Scheduling.Yield(Abs()); 0 < |y.ring| && Scheduling.Inv(machine, y) && Scheduling.AllLive(y)
    {
      Scheduling.YieldKeeps(machine, Abs());
    }

    /** The end of a step: unlink the current thread if it died, and schedule the next. */
    method Choose(t: Thread, clock: nat -> Time, limit: nat) returns (next: Thread)
      requires Valid() && 0 < |ring| && t == ring[0] && !exiting
      modifies this, all
      ensures Valid() && all == old(all) && 0 < |ring| && next == ring[0] && Scheduling.AllLive(Abs())
      ensures exiting == old(exiting) && failed == old(failed)
      ensures 0 < |old(Abs()).ring| && 0 < |Scheduling.Yield(old(Abs())).ring|
      ensures Abs() == Scheduling.Search(Scheduling.Yield(old(Abs())), clock, 0, limit)
    {
      hide *;
      ValidParts();
      YieldIsLive();
      next := NextThread(t);
      Scheduling.SearchKeeps(machine, Abs(), clock, 0, limit);
      next := Schedule(next, clock, limit);
      PartsValid();
    }

    lemma WhenEnded()
      ensures Scheduling.Ended(Abs()) <==> exiting || failed
    {
    }

    lemma RunningSeen(t: Thread)
      ensures t.Seen().status == Running <==> t.state == ThreadRunning
    {
    }

    /** pn_executor_run_step: a quantum of the current thread, unlinking it if it died, and the choice of
        the next thread; none when the program has ended. */
    method RunStep(t: Thread, clock: nat -> Time, limit: nat) returns (next: Thread?)
      requires Valid() && 0 < |ring| && t == ring[0] && t.state == ThreadRunning
      requires !exiting && !failed
      modifies this, all
      ensures Valid() && fresh(all - old(all)) && old(all) <= all && 0 < |old(Abs()).ring|
      ensures Abs() == Scheduling.Step(machine, old(Abs()), Scheduling.Input(clock, limit))
      ensures exiting || failed ==> next == null
      ensures !exiting && !failed ==> 0 < |ring| && next == ring[0] && Scheduling.AllLive(Abs())
    {
      hide *;
      ValidParts();
      RunningSeen(t);
      WhenEnded();
      Scheduling.StepRunning(machine, Abs(), Scheduling.Input(clock, limit));
      RunQuantum(t);
      ValidParts();
      WhenEnded();
      if exiting || failed {
        return null;
      }
      next := Choose(t, clock, limit);
    }

    /** If the scheduling loop was still looking when last watched, it goes on looking from where it is. */
    method KeepLooking(t: Thread, clock: nat -> Time, limit: nat) returns (next: Thread)
      requires Valid() && 0 < |ring| && t == ring[0] && t.state != ThreadRunning
      requires !exiting && !failed && Scheduling.AllLive(Abs())
      modifies this, all
      ensures Valid() && all == old(all) && 0 < |ring| && next == ring[0] && Scheduling.AllLive(Abs())
      ensures 0 < |old(Abs()).ring| && Abs() == Scheduling.Step(machine, old(Abs()), Scheduling.Input(clock, limit))
    {
      hide *;
      ValidParts();
      RunningSeen(t);
      WhenEnded();
      Scheduling.StepLooking(machine, Abs(), Scheduling.Input(clock, limit));
      Scheduling.SearchKeeps(machine, Abs(), clock, 0, limit);
      next := Schedule(t, clock, limit);
      PartsValid();
    }
  }
}
