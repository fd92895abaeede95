/** What the instructions and the steps of the executor do, said in terms of the threads' own fields. */
module ThreadSteps {
  import opened Common
  import opened Futex
  import opened Scheduling

  // ----- deadlines -----

  const MICROSECONDS: nat := 1_000_000

  /** A deadline passes when more microseconds have gone by than it names. */
  lemma PassedIs(now: Time, d: Deadline)
    ensures d.Never? ==> !Passed(now, d)
    ensures d.Until? && now.usec < MICROSECONDS && d.at.usec < MICROSECONDS ==>
      (Passed(now, d) <==> now.sec * MICROSECONDS + now.usec > d.at.sec * MICROSECONDS + d.at.usec)
  {
  }

  /** The deadline of a wait is the last whole microsecond up to the time it is given, if it is given one. */
  lemma DeadlineIs(m: Machine, mem: Memory, abstime: nat)
    ensures ReadDeadline(m, mem, abstime).Never? <==> abstime == 0
    ensures abstime != 0 ==>
      var t := ReadDeadline(m, mem, abstime).at;
      && t.sec == m.load64(mem, abstime)
      && 1000 * t.usec <= m.load32(mem, abstime + 8) < 1000 * (t.usec + 1)
  {
  }

  // ----- instructions -----

  /** The current thread is at `i` and runs. */
  ghost predicate Runs(m: Machine, c: Config, i: Instr) {
    0 < |c.ring| && c.ring[0].status == Running && m.decode(c.ring[0].local) == i
  }

  ghost predicate OthersSame(c: Config, d: Config) {
    0 < |c.ring| == |d.ring| && forall i :: 0 < i < |c.ring| ==> d.ring[i] == c.ring[i]
  }

  /** A wait blocks if and only if it is a first wait and the word is the value it was given. Else it
      returns: EAGAIN from a first wait, 0 after a wake, ETIMEDOUT after a timeout. */
  lemma WaitIs(m: Machine, c: Config, addr: nat, value: nat, abstime: nat)
    requires Runs(m, c, Wait(addr, value, abstime))
    ensures var d := Instruction(m, c);
      var v, u, word := c.ring[0], d.ring[0], m.load32(c.mem, addr);
      && OthersSame(c, d) && d == c.(ring := d.ring, log := d.log)
      && u.id == v.id && u.futex == NoFutex
      && (u.status.Blocked? <==> v.futex == NoFutex && word == value)
      && (u.status.Blocked? ==>
            && u.status == Blocked(addr, ReadDeadline(m, c.mem, abstime)) && u.local == m.store(v.local, 0)
            && d.log == c.log + [BlockedOn(v.id, addr, u.status.deadline, word, value)])
      && (!u.status.Blocked? ==>
            var errno := match v.futex { case NoFutex => 11 case Woken => 0 case TimedOut => 110 };
            && u.status == Running && u.local == m.advance(m.store(v.local, errno))
            && d.log == c.log +
                 [if v.futex == NoFutex then Refused(v.id, addr, word, value) else Returned(v.id, errno)])
  {
  }

  /** The places of the threads blocked on `addr`. */
  ghost function Waiting(vs: seq<View>, addr: nat): set<nat> {
    set i: nat | i < |vs| && vs[i].status.Blocked? && vs[i].status.addr == addr
  }

  ghost function WaitingBefore(vs: seq<View>, addr: nat, k: nat): set<nat>
    requires k <= |vs|
  {
    set i: nat | i < k && WaitsOn(vs[i], addr)
  }

  lemma {:induction false} WaitingCount(vs: seq<View>, addr: nat, k: nat)
    requires k <= |vs|
    ensures |WaitingBefore(vs, addr, k)| == Waiters(vs[..k], addr)
  {
    if k > 0 {
      WaitingCount(vs, addr, k - 1);
      WaitersStep(vs, addr, k - 1);
      assert WaitingBefore(vs, addr, k) ==
        WaitingBefore(vs, addr, k - 1) + if WaitsOn(vs[k - 1], addr) then {k - 1} else {};
    } else {
      assert WaitingBefore(vs, addr, k) == {};
    }
  }

  ghost function WokenBefore(vs: seq<View>, addr: nat, nwake: nat, k: nat): set<nat>
    requires k <= |vs|
  {
    set i: nat | i < k && Reached(vs, addr, nwake, i)
  }

  lemma {:induction false} WokenCount(vs: seq<View>, addr: nat, nwake: nat, k: nat)
    requires k <= |vs|
    ensures |WokenBefore(vs, addr, nwake, k)| == Min(nwake, Waiters(vs[..k], addr))
  {
    hide Waiters, WaitsOn, WokenBefore;
    if k > 0 {
      WokenCount(vs, addr, nwake, k - 1);
      WaitersStep(vs, addr, k - 1);
      WokenNext(vs, addr, nwake, k - 1);
    } else {
      NoWaiters(vs, addr);
      NoneWoken(vs, addr, nwake);
    }
  }

  lemma WokenNext(vs: seq<View>, addr: nat, nwake: nat, k: nat)
    requires k < |vs|
    ensures k !in WokenBefore(vs, addr, nwake, k)
    ensures WokenBefore(vs, addr, nwake, k + 1) ==
      WokenBefore(vs, addr, nwake, k) + if Reached(vs, addr, nwake, k) then {k} else {}
  {
    hide Reached;
  }

  lemma NoneWoken(vs: seq<View>, addr: nat, nwake: nat)
    ensures WokenBefore(vs, addr, nwake, 0) == {}
  {
  }

  lemma NoWaiters(vs: seq<View>, addr: nat)
    ensures Waiters(vs[..0], addr) == 0
  {
  }

  /** The places of the threads that are not as they were. */
  ghost function Changed(vs: seq<View>, us: seq<View>): set<nat>
    requires |us| == |vs|
  {
    set i: nat | 0 < i < |vs| && us[i] != vs[i]
  }

  /** A wake wakes threads blocked on its address and no others, as many as it may or as there are, no
      thread before one that stands nearer, and writes how many to memory. */
  lemma WakeIs(m: Machine, c: Config, addr: nat, nwake: nat, count: nat)
    requires Runs(m, c, Wake(addr, nwake, count))
    ensures var d := Instruction(m, c);
      && |d.ring| == |c.ring| && d.ring[0] == c.ring[0].(local := m.advance(m.store(c.ring[0].local, 0)))
      && var (all, woken) := (Waiting(c.ring, addr), Changed(c.ring, d.ring));
      && woken <= all && |woken| == (if nwake < |all| then nwake else |all|)
      && (forall i :: i in woken ==> d.ring[i] == c.ring[i].(status := Running, futex := Woken))
      && (forall i, j :: i in all && j in woken && i < j ==> i in woken)
      && d.mem == m.store32(c.mem, count, |woken|)
      && d == c.(ring := d.ring, log := d.log, mem := d.mem)
  {
    var vs, d := c.ring, Instruction(m, c);
    assert Waiting(vs, addr) == WaitingBefore(vs, addr, |vs|);
    assert Changed(vs, d.ring) == WokenBefore(vs, addr, nwake, |vs|);
    WaitingCount(vs, addr, |vs|);
    WokenCount(vs, addr, nwake, |vs|);
    assert vs[..|vs|] == vs;
    forall i, j | i in Waiting(vs, addr) && j in Changed(vs, d.ring) && i < j
      ensures i in Changed(vs, d.ring)
    {
      WaitersMonotone(vs, addr, i, j);
    }
  }

  /** A new thread gets the next id, starts running at its function and stands right behind its creator. */
  lemma CreateIs(m: Machine, c: Config, func: nat, stack: nat, tls: nat)
    requires Runs(m, c, Create(func, stack, tls))
    ensures var d := Instruction(m, c);
      && d == c.(ring := d.ring, nextId := c.nextId + 1) && |d.ring| == |c.ring| + 1
      && d.ring[0] == c.ring[0].(local := m.advance(m.store(c.ring[0].local, 0)))
      && d.ring[1] == View(c.nextId, Running, NoFutex, m.begin(func, stack, tls))
      && forall i :: 0 < i < |c.ring| ==> d.ring[i + 1] == c.ring[i]
  {
  }

  /** What ends a thread, and what ends the program, with which exit code. */
  lemma EndIs(m: Machine, c: Config)
    requires 0 < |c.ring| && c.ring[0].status == Running
    ensures var d, v := Instruction(m, c), c.ring[0];
      match m.decode(v.local)
      case ExitThread(flag) =>
        if v.id == 0 then d == c.(failed := true)
        else
          d == c.(ring := d.ring, mem := if flag == 0 then c.mem else m.store32(c.mem, flag, 0))
          && OthersSame(c, d) && d.ring[0] == v.(status := Dead, local := m.store(v.local, 0))
      case ExitProcess(code) =>
        d == c.(ring := d.ring, exiting := true, exitCode := code)
        && OthersSame(c, d) && d.ring[0] == v.(status := Dead, local := m.store(v.local, 0))
      case Trap =>
        d == c.(ring := d.ring, exiting := true, exitCode := -1)
        && OthersSame(c, d) && d.ring[0] == v.(status := Dead)
      case ReturnFromTop(code) =>
        (if v.id == 0 then d == c.(ring := d.ring, exiting := true, exitCode := code) else d == c.(ring := d.ring))
        && OthersSame(c, d) && d.ring[0] == v.(status := Dead)
      case Other =>
        d == c.(ring := d.ring, mem := m.exec(v.local, c.mem).1)
        && OthersSame(c, d) && d.ring[0] == v.(local := m.exec(v.local, c.mem).0)
      case _ => d.ring[0].status != Dead
  {
  }

  // ----- quanta and steps -----

  ghost function Instructions(m: Machine, c: Config, k: nat): (d: Config)
    requires 0 < |c.ring|
    ensures 0 < |d.ring|
  {
    if k == 0 then c else Instruction(m, Instructions(m, c, k - 1))
  }

  lemma {:induction false} InstructionsFirst(m: Machine, c: Config, k: nat)
    requires 0 < |c.ring| && 0 < k
    ensures Instructions(m, c, k) == Instructions(m, Instruction(m, c), k - 1)
  {
    hide Instruction;
    if k > 1 {
      InstructionsFirst(m, c, k - 1);
    }
  }

  ghost predicate GoesOn(c: Config) {
    0 < |c.ring| && c.ring[0].status == Running && !c.failed
  }

  /** A quantum is as many instructions of the current thread as it may have, or as it takes until the
      thread does not run any more. */
  lemma {:induction false} QuantumIs(m: Machine, c: Config, n: nat) returns (k: nat)
    requires 0 < |c.ring|
    ensures k <= n && Quantum(m, c, n) == Instructions(m, c, k)
    ensures forall j: nat :: j < k ==> GoesOn(Instructions(m, c, j))
    ensures k < n ==> !GoesOn(Instructions(m, c, k))
    decreases n
  {
    hide Instruction;
    k := 0;
    if n > 0 && GoesOn(c) {
      var i := QuantumIs(m, Instruction(m, c), n - 1);
      k := i + 1;
      InstructionsFirst(m, c, k);
      forall j: nat | j < k
        ensures GoesOn(Instructions(m, c, j))
      {
        if j > 0 {
          InstructionsFirst(m, c, j);
        }
      }
    }
  }

  /** One step: up to a hundred instructions of the current thread, and if that does not end the program,
      the scheduling loop from the thread behind it, with the current one last unless it died. */
  lemma StepIs(m: Machine, c: Config, input: Input) returns (k: nat)
    requires 0 < |c.ring| && !c.exiting && !c.failed && c.ring[0].status == Running
    ensures k <= 100 && (k < 100 ==> !GoesOn(Instructions(m, c, k)))
    ensures forall j: nat :: j < k ==> GoesOn(Instructions(m, c, j))
    ensures var q, d := Instructions(m, c, k), Step(m, c, input);
      var behind := q.ring[1..] + if q.ring[0].status == Dead then [] else [q.ring[0]];
      d == if q.exiting || q.failed || behind == [] then q
           else Search(q.(ring := behind), input.clock, 0, input.limit)
  {
    hide Instruction, Search;
    k := QuantumIs(m, c, 100);
    var q := Instructions(m, c, k);
    assert q.ring[1..] + [] == q.ring[1..];
  }

  // ----- nobody is lost -----

  ghost predicate InRing(c: Config, id: nat) {
    exists i :: 0 <= i < |c.ring| && c.ring[i].id == id
  }

  /** The threads of `d` are those of `c`, and those created since. */
  ghost predicate SameOrNew(c: Config, d: Config) {
    c.nextId <= d.nextId && forall id: nat :: InRing(d, id) <==> InRing(c, id) || c.nextId <= id < d.nextId
  }

  lemma InstructionAdds(m: Machine, c: Config)
    requires 0 < |c.ring|
    ensures SameOrNew(c, Instruction(m, c))
  {
    var d := Instruction(m, c);
    if m.decode(c.ring[0].local).Create? {
      OneAdds(c, d);
    } else {
      SameAdds(c, d);
    }
  }

  lemma OneAdds(c: Config, d: Config)
    requires 0 < |c.ring| && |d.ring| == |c.ring| + 1 && d.nextId == c.nextId + 1
    requires d.ring[0].id == c.ring[0].id && d.ring[1].id == c.nextId
    requires forall i :: 0 < i < |c.ring| ==> d.ring[i + 1].id == c.ring[i].id
    ensures SameOrNew(c, d)
  {
    forall id: nat
      ensures InRing(d, id) <==> InRing(c, id) || id == c.nextId
    {
      if i :| 0 <= i < |c.ring| && c.ring[i].id == id {
        assert d.ring[if i == 0 then 0 else i + 1].id == id;
      }
      if id == c.nextId {
        assert d.ring[1].id == id;
      }
      if i :| 0 <= i < |d.ring| && d.ring[i].id == id {
        assert 1 < i ==> d.ring[i - 1 + 1].id == c.ring[i - 1].id;
        assert i != 1 ==> c.ring[if i == 0 then 0 else i - 1].id == id;
      }
    }
  }

  lemma SameAdds(c: Config, d: Config)
    requires |d.ring| == |c.ring| && d.nextId == c.nextId
    requires forall i :: 0 <= i < |c.ring| ==> d.ring[i].id == c.ring[i].id
    ensures SameOrNew(c, d)
  {
    forall id: nat
      ensures InRing(d, id) <==> InRing(c, id)
    {
      if i :| 0 <= i < |c.ring| && c.ring[i].id == id {
        assert d.ring[i].id == id;
      }
      if i :| 0 <= i < |d.ring| && d.ring[i].id == id {
        assert c.ring[i].id == id;
      }
    }
  }

  lemma {:induction false} InstructionsAdd(m: Machine, c: Config, k: nat)
    requires 0 < |c.ring|
    ensures SameOrNew(c, Instructions(m, c, k))
  {
    hide Instruction, InRing;
    if k > 0 {
      InstructionsAdd(m, c, k - 1);
      InstructionAdds(m, Instructions(m, c, k - 1));
    }
  }

  lemma RotatedIds(c: Config)
    requires 0 < |c.ring|
    ensures forall id: nat :: InRing(Rotated(c), id) <==> InRing(c, id)
  {
    var d, n := Rotated(c), |c.ring|;
    forall id: nat
      ensures InRing(d, id) <==> InRing(c, id)
    {
      if i :| 0 <= i < n && c.ring[i].id == id {
        assert d.ring[if i == 0 then n - 1 else i - 1].id == id;
      }
      if i :| 0 <= i < n && d.ring[i].id == id {
        assert c.ring[if i == n - 1 then 0 else i + 1].id == id;
      }
    }
  }

  lemma {:induction false} SearchIds(c: Config, clock: nat -> Time, k: nat, limit: nat)
    requires 0 < |c.ring| && k <= limit
    ensures forall id: nat :: InRing(Search(c, clock, k, limit), id) <==> InRing(c, id)
    decreases limit - k
  {
    if k == limit || c.ring[0].status == Running {
    } else if Expires(c.ring[0], clock(k)) {
      SameAdds(c, Expire(c, clock(k)));
    } else {
      RotatedIds(c);
      SearchIds(Rotated(c), clock, k + 1, limit);
    }
  }

  lemma BehindIds(q: Config)
    requires DistinctInRing(q)
    ensures forall id: nat :: InRing(q.(ring := q.ring[1..]), id) <==> InRing(q, id) && id != q.ring[0].id
  {
    var d := q.(ring := q.ring[1..]);
    forall id: nat
      ensures InRing(d, id) <==> InRing(q, id) && id != q.ring[0].id
    {
      if i :| 0 <= i < |q.ring| && q.ring[i].id == id {
        assert i > 0 ==> d.ring[i - 1].id == id;
      }
      if i :| 0 <= i < |d.ring| && d.ring[i].id == id {
        assert q.ring[i + 1].id == id;
      }
    }
  }

  ghost predicate DistinctInRing(c: Config) {
    0 < |c.ring| && forall i, j :: 0 <= i < j < |c.ring| ==> c.ring[i].id != c.ring[j].id
  }

  /** After a step that does not end the program the ring has the threads it had and those created in it,
      without the one that ran if that died. */
  lemma NobodyIsLost(m: Machine, c: Config, input: Input) returns (k: nat)
    requires SingleAssignment(m) && Settled(m, c) && !Ended(c) && c.ring[0].status == Running
    ensures var q, d := Instructions(m, c, k), Step(m, c, input);
      k <= 100 && (Ended(q) ==> Ended(d))
      && (!Ended(q) ==>
            forall id: nat :: InRing(d, id) <==>
              (InRing(c, id) || c.nextId <= id < d.nextId) && (q.ring[0].status == Dead ==> id != c.ring[0].id))
  {
    hide Instruction, Search, InRing, SingleAssignment, FutexOk, LogOk;
    k := StepIs(m, c, input);
    InstructionsAdd(m, c, k);
    InstructionsKeep(m, c, k);
    var q := Instructions(m, c, k);
    if !Ended(q) {
      YieldKeeps(m, q);
      assert Yield(q).ring == q.ring[1..] + if q.ring[0].status == Dead then [] else [q.ring[0]];
      assert Step(m, c, input) == Search(Yield(q), input.clock, 0, input.limit);
      BehindIds(q);
      RotatedIds(q);
      SearchIds(Yield(q), input.clock, 0, input.limit);
    }
  }

  lemma {:induction false} InstructionsKeep(m: Machine, c: Config, k: nat)
    requires SingleAssignment(m) && Inv(m, c) && forall j: nat :: j < k ==> GoesOn(Instructions(m, c, j))
    ensures Inv(m, Instructions(m, c, k)) && DistinctInRing(Instructions(m, c, k))
    ensures Instructions(m, c, k).ring[0].id == c.ring[0].id
  {
    hide Instruction, SingleAssignment, FutexOk, LogOk;
    if k > 0 {
      InstructionsKeep(m, c, k - 1);
      InstructionKeeps(m, Instructions(m, c, k - 1));
    }
  }
}
