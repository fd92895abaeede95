/** Futex states and the history that explains them. */
module Futex {

  const SUCCESS: nat := 0
  const ETIMEDOUT: nat := 110
  const EAGAIN: nat := 11
  const NANOSECONDS_IN_A_MICROSECOND: nat := 1000

  datatype FutexState = NoFutex | Woken | TimedOut

  datatype Time = Time(sec: nat, usec: nat)

  datatype Deadline = Never | Until(at: Time)

  /** A deadline passes strictly after its time. */
  predicate Passed(now: Time, d: Deadline) {
    d.Until? && (now.sec > d.at.sec || (now.sec == d.at.sec && now.usec > d.at.usec))
  }

  /** Whether a thread can run, or the futex address it waits on and until when. */
  datatype Status = Running | Blocked(addr: nat, deadline: Deadline) | Dead

  /** A thread's own state (instruction pointer, frames, values) and the memory are opaque here; they
      are only used through the machine below. */
  type Local = int
  type Memory = int

  /** The instructions that matter to scheduling, with their argument values. */
  datatype Instr =
    | Wait(addr: nat, value: nat, abstime: nat)
    | Wake(addr: nat, nwake: nat, count: nat)
    | Create(func: nat, stack: nat, tls: nat)
    | ExitThread(flag: nat)
    | ExitProcess(code: int)
    | Trap
    | ReturnFromTop(code: int)
    | Other

  /** What a local state means: the instruction it is at, what the other instructions do, how a call of
      a builtin stores its result and steps past itself, and how a new thread starts. */
  datatype Machine = Machine(
    decode: Local -> Instr,
    exec: (Local, Memory) -> (Local, Memory),
    store: (Local, nat) -> Local,
    advance: Local -> Local,
    begin: (nat, nat, nat) -> Local,
    load32: (Memory, nat) -> nat,
    load64: (Memory, nat) -> nat,
    store32: (Memory, nat, nat) -> Memory)

  /** Static single assignment: the result of a call is not one of its own arguments, so that storing it
      does not change what the call will do when it is run again. */
  ghost predicate SingleAssignment(m: Machine) {
    forall l, v :: m.decode(l).Wait? ==> m.decode(m.store(l, v)) == m.decode(l)
  }

  /** The deadline a wait is given: a timespec, in nanoseconds, kept in microseconds. */
  function ReadDeadline(m: Machine, mem: Memory, abstime: nat): Deadline {
    if abstime == 0 then Never
    else Until(Time(m.load64(mem, abstime), m.load32(mem, abstime + 8) / NANOSECONDS_IN_A_MICROSECOND))
  }

  /** What happened, in order. Threads are named by their ids, which are never reused. A wait that blocks
      or is refused records the word it read and the value it was given. */
  datatype Event =
    | BlockedOn(id: nat, addr: nat, deadline: Deadline, word: nat, value: nat)
    | Refused(id: nat, addr: nat, word: nat, value: nat)
    | WokeUp(waker: nat, addr: nat, woken: set<nat>)
    | Expired(id: nat, now: Time)
    | Returned(id: nat, errno: nat)

  /** The fields of a thread that the futex operations use. */
  datatype View = View(id: nat, status: Status, futex: FutexState, local: Local)

  ghost predicate Concerns(e: Event, id: nat) {
    match e
    case WokeUp(_, _, woken) => id in woken
    case BlockedOn(i, _, _, _, _) => i == id
    case Refused(i, _, _, _) => i == id
    case Expired(i, _) => i == id
    case Returned(i, _) => i == id
  }

  ghost predicate Quiet(log: seq<Event>, a: nat, b: nat, id: nat) {
    forall k :: a <= k < b && k < |log| ==> !Concerns(log[k], id)
  }

  /** At `i` thread `id` blocked on `addr`, and at `j`, with nothing about it in between, it was
      released: by another thread's wake on the same address, or by its own deadline. */
  ghost predicate Released(log: seq<Event>, i: nat, j: nat, id: nat, addr: nat, errno: nat) {
    && i < j < |log|
    && log[i].BlockedOn? && log[i].id == id && log[i].addr == addr
    && Quiet(log, i + 1, j, id)
    && Concerns(log[j], id)
    && if errno == SUCCESS then log[j].WokeUp? && log[j].waker != id && log[j].addr == addr
       else errno == ETIMEDOUT && log[j].Expired? && Passed(log[j].now, log[i].deadline)
  }

  /** The wait that returned at `k` had been released, for the reason its result gives and no other. */
  ghost predicate Explained(log: seq<Event>, k: nat)
    requires k < |log| && log[k].Returned?
  {
    exists i: nat, j: nat, addr: nat ::
      Released(log, i, j, log[k].id, addr, log[k].errno) && j < k && Quiet(log, j + 1, k, log[k].id)
  }

  /** Every wait that blocked had found the value it was given, every wait that was refused had not, and
      every wait that returned had been released. */
  ghost predicate LogOk(log: seq<Event>) {
    && (forall k: nat :: k < |log| && log[k].BlockedOn? ==> log[k].word == log[k].value)
    && (forall k: nat :: k < |log| && log[k].Refused? ==> log[k].word != log[k].value)
    && (forall k: nat :: k < |log| && log[k].Returned? ==> Explained(log, k))
  }

  /** The event with which thread `v`, blocked now, blocked. */
  ghost predicate Blocks(e: Event, v: View)
    requires v.status.Blocked?
  {
    e.BlockedOn? && e.id == v.id && e.addr == v.status.addr && e.deadline == v.status.deadline
  }

  /** A blocked thread is at its wait call and has blocked since anything else happened to it. */
  ghost predicate WaitingOk(m: Machine, log: seq<Event>, v: View)
    requires v.status.Blocked?
  {
    && m.decode(v.local).Wait? && m.decode(v.local).addr == v.status.addr
    && exists i: nat ::
      && i < |log| && Blocks(log[i], v)
      && Quiet(log, i + 1, |log|, v.id)
  }

  /** A released thread is still at its wait call, and its release is the last thing about it. */
  ghost predicate ReleasedOk(m: Machine, log: seq<Event>, v: View, errno: nat) {
    && m.decode(v.local).Wait?
    && exists i: nat, j: nat ::
      && Released(log, i, j, v.id, m.decode(v.local).addr, errno)
      && Quiet(log, j + 1, |log|, v.id)
  }

  /** A thread whose futex state is set is running and still at that wait call. */
  ghost predicate FutexOk(m: Machine, log: seq<Event>, v: View) {
    match v.futex
    case NoFutex => v.status.Blocked? ==> WaitingOk(m, log, v)
    case Woken => v.status == Running && ReleasedOk(m, log, v, SUCCESS)
    case TimedOut => v.status == Running && ReleasedOk(m, log, v, ETIMEDOUT)
  }

  // ----- appending to the history -----

  lemma QuietAppend(log: seq<Event>, e: Event, a: nat, id: nat)
    requires Quiet(log, a, |log|, id) && !Concerns(e, id)
    ensures Quiet(log + [e], a, |log| + 1, id)
  {
  }

  lemma ReleasedAppend(log: seq<Event>, e: Event, i: nat, j: nat, id: nat, addr: nat, errno: nat)
    requires Released(log, i, j, id, addr, errno)
    ensures Released(log + [e], i, j, id, addr, errno)
  {
    assert forall k :: 0 <= k < |log| ==> (log + [e])[k] == log[k];
  }

  /** What happens to other threads does not disturb a thread. */
  lemma UnconcernedKeeps(m: Machine, log: seq<Event>, e: Event, v: View)
    requires FutexOk(m, log, v) && !Concerns(e, v.id)
    ensures FutexOk(m, log + [e], v)
  {
    if v.futex == NoFutex {
      if v.status.Blocked? {
        var i: nat :| i < |log| && Blocks(log[i], v) && Quiet(log, i + 1, |log|, v.id);
        QuietAppend(log, e, i + 1, v.id);
        assert (log + [e])[i] == log[i];
      }
    } else {
      var errno := if v.futex == Woken then SUCCESS else ETIMEDOUT;
      var addr := m.decode(v.local).addr;
      var i: nat, j: nat :| Released(log, i, j, v.id, addr, errno) && Quiet(log, j + 1, |log|, v.id);
      ReleasedAppend(log, e, i, j, v.id, addr, errno);
      QuietAppend(log, e, j + 1, v.id);
    }
  }

  lemma LogAppend(log: seq<Event>, e: Event)
    requires LogOk(log) && (e.Returned? ==> Explained(log + [e], |log|))
    requires (e.BlockedOn? ==> e.word == e.value) && (e.Refused? ==> e.word != e.value)
    ensures LogOk(log + [e])
  {
    forall k: nat | k < |log| && log[k].Returned?
      ensures (log + [e])[k] == log[k] && Explained(log + [e], k)
    {
      assert (log + [e])[k] == log[k];
      var i: nat, j: nat, addr: nat :|
        Released(log, i, j, log[k].id, addr, log[k].errno) && j < k && Quiet(log, j + 1, k, log[k].id);
      ReleasedAppend(log, e, i, j, log[k].id, addr, log[k].errno);
      assert Quiet(log + [e], j + 1, k, log[k].id) by {
        assert forall n :: 0 <= n < |log| ==> (log + [e])[n] == log[n];
      }
      assert Released(log + [e], i, j, (log + [e])[k].id, addr, (log + [e])[k].errno);
    }
  }

  /** Blocking starts a wait. */
  lemma BlockStarts(m: Machine, log: seq<Event>, e: Event, v: View)
    requires v.status.Blocked? && v.futex == NoFutex && Blocks(e, v)
    requires m.decode(v.local).Wait? && m.decode(v.local).addr == v.status.addr
    ensures FutexOk(m, log + [e], v)
  {
    var l := log + [e];
    assert l[|log|] == e && Quiet(l, |log| + 1, |l|, v.id);
  }

  /** A wake by another thread, or an expired deadline, releases a blocked thread. */
  lemma ReleaseOk(m: Machine, log: seq<Event>, e: Event, v: View, u: View)
    requires FutexOk(m, log, v) && v.status.Blocked? && v.futex == NoFutex
    requires Concerns(e, v.id) && (e.Expired? || e.WokeUp?)
    requires e.WokeUp? ==> e.waker != v.id && e.addr == v.status.addr
    requires e.Expired? ==> Passed(e.now, v.status.deadline)
    requires u == v.(status := Running, futex := if e.WokeUp? then Woken else TimedOut)
    ensures FutexOk(m, log + [e], u)
  {
    var i: nat :| i < |log| && Blocks(log[i], v) && Quiet(log, i + 1, |log|, v.id);
    var l := log + [e];
    assert l[i] == log[i] && l[|log|] == e;
    assert Quiet(l, i + 1, |log|, v.id);
    assert Released(l, i, |log|, v.id, v.status.addr, if e.WokeUp? then SUCCESS else ETIMEDOUT);
    assert Quiet(l, |log| + 1, |l|, v.id);
  }

  /** A released thread that runs its wait call again returns for the reason it was released. */
  lemma ReturnExplained(m: Machine, log: seq<Event>, v: View, errno: nat)
    requires FutexOk(m, log, v) && v.futex != NoFutex
    requires errno == if v.futex == Woken then SUCCESS else ETIMEDOUT
    ensures Explained(log + [Returned(v.id, errno)], |log|)
  {
    var e := Returned(v.id, errno);
    var addr := m.decode(v.local).addr;
    var i: nat, j: nat :| Released(log, i, j, v.id, addr, errno) && Quiet(log, j + 1, |log|, v.id);
    ReleasedAppend(log, e, i, j, v.id, addr, errno);
    assert Quiet(log + [e], j + 1, |log|, v.id);
    assert (log + [e])[|log|] == e;
  }
}
