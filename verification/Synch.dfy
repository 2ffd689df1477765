/**
 The round-robin scheduler, semaphores, locks and condition variables as a step
 system.  A step is a stretch of code that runs with interrupts off, or one memory
 access that no interrupt can split; between steps the running thread may be
 preempted.  A thread woken from a semaphore tests the value again when it next
 runs, so another thread can get there first.
 */
module Synch {

  import opened Options

  type Tid = nat

  const IDLE: Tid := 0

  /** A semaphore is free-standing, belongs to a lock, or is private to one wait on a condition. */
  datatype SemaId = Free(n: nat) | OfLock(l: nat) | Private(w: nat)

  datatype Status = Running | Ready | Blocked

  /** Where a thread is: in its own code, or about to take the named step of a primitive. */
  datatype Pc =
    | User
    | Downing(n: nat)                            // sema_down: at the test
    | Upping(n: nat)                             // sema_up
    | Trying(n: nat)                             // sema_try_down
    | Acquiring(l: nat)                          // lock_acquire, or the end of cond_wait: at the test
    | TryAcquiring(l: nat)                       // lock_try_acquire: at the test
    | Acquired(l: nat)                           // about to become the holder
    | Releasing(l: nat)                          // lock_release: about to clear the holder
    | Released(l: nat)                           // about to up the lock's semaphore
    | Enlisting(c: nat, l: nat)                  // cond_wait: about to join the queue
    | WaitReleasing(c: nat, l: nat, w: nat)      // about to clear the holder
    | WaitReleased(c: nat, l: nat, w: nat)       // about to up the lock's semaphore
    | Waiting(c: nat, l: nat, w: nat)            // at the test of its private semaphore
    | Signalling(c: nat, l: nat, all: bool)      // cond_signal or cond_broadcast: about to look at the queue
    | Waking(c: nat, l: nat, w: nat, all: bool)  // about to up the private semaphore it popped

  /** `woken` holds from being unblocked until the value has been tested again. */
  datatype Thread = Thread(status: Status, pc: Pc, woken: bool)

  /** A semaphore, with its history: the initial value and how often it was upped and downed. */
  datatype Sema = Sema(value: nat, waiters: seq<Tid>, initial: nat, ups: nat, downs: nat)

  datatype State = State(
    threads: map<Tid, Thread>,
    cur: Tid,
    ready: seq<Tid>,
    semas: map<SemaId, Sema>,
    holders: map<nat, Option<Tid>>,
    queues: map<nat, seq<nat>>,
    condLocks: map<nat, nat>,
    nextTid: Tid,
    nextWaiter: nat,
    // history: threads between a completed down of a lock's semaphore and the up that releases it
    inside: map<nat, set<Tid>>,
    // history: for each private semaphore, the thread that waits on it and the condition it waits for
    waiterOf: map<nat, Tid>,
    origin: map<nat, nat>)

  function Me(st: State): Thread {
    if st.cur in st.threads then st.threads[st.cur] else Thread(Running, User, false)
  }

  function Sem(st: State, s: SemaId): Sema {
    if s in st.semas then st.semas[s] else Sema(0, [], 0, 0, 0)
  }

  /** The semaphore whose value is tested at this point. */
  function WaitsOn(pc: Pc): Option<SemaId> {
    match pc
    case Downing(n) => Some(Free(n))
    case Acquiring(l) => Some(OfLock(l))
    case Waiting(c, l, w) => Some(Private(w))
    case _ => None
  }

  function AfterDown(pc: Pc): Pc {
    match pc
    case Acquiring(l) => Acquired(l)
    case Waiting(c, l, w) => Acquiring(l)
    case _ => User
  }

  /** The semaphore upped at this point. */
  function UpsNow(pc: Pc): Option<SemaId> {
    match pc
    case Upping(n) => Some(Free(n))
    case Released(l) => Some(OfLock(l))
    case WaitReleased(c, l, w) => Some(OfLock(l))
    case Waking(c, l, w, all) => Some(Private(w))
    case _ => None
  }

  function AfterUp(pc: Pc): Pc {
    match pc
    case WaitReleased(c, l, w) => Waiting(c, l, w)
    case Waking(c, l, w, all) => if all then Signalling(c, l, true) else User
    case _ => User
  }

  // ---------- Pieces of steps ----------

  /** The running thread moves on to `pc`. */
  function GoTo(st: State, pc: Pc): State {
    st.(threads := st.threads[st.cur := Thread(Running, pc, false)])
  }

  function SetSema(st: State, s: SemaId, x: Sema): State {
    st.(semas := st.semas[s := x])
  }

  function Take(st: State, s: SemaId): State {
    var x := Sem(st, s);
    SetSema(st, s, x.(value := if x.value > 0 then x.value - 1 else 0, downs := x.downs + 1))
  }

  /** Makes a blocked thread ready. */
  function Unblock(st: State, t: Tid): State {
    if t in st.threads
    then st.(threads := st.threads[t := st.threads[t].(status := Ready, woken := true)], ready := st.ready + [t])
    else st
  }

  /** sema_up: wakes the longest-waiting thread, if any, and raises the value. */
  function Give(st: State, s: SemaId): State {
    var x := Sem(st, s);
    var rest := if x.waiters == [] then [] else x.waiters[1..];
    SetSema(
      if x.waiters == [] then st else Unblock(st, x.waiters[0]),
      s, x.(value := x.value + 1, waiters := rest, ups := x.ups + 1))
  }

  /** schedule(): the front of the ready list runs next, or the idle thread if it is empty. */
  function Dispatch(st: State): State {
    var next := if st.ready == [] then IDLE else st.ready[0];
    var rest := if st.ready == [] then [] else st.ready[1..];
    if next in st.threads
    then st.(cur := next, ready := rest, threads := st.threads[next := st.threads[next].(status := Running)])
    else st
  }

  /** The running thread has joined the waiters of `s` and blocked. */
  function Asleep(st: State, s: SemaId): State {
    var x := Sem(st, s);
    var listed := SetSema(st, s, x.(waiters := x.waiters + [st.cur]));
    listed.(threads := listed.threads[st.cur := Thread(Blocked, Me(st).pc, false)])
  }

  /** The running thread has gone to the back of the ready list; the idle thread never joins it. */
  function Yielded(st: State): State {
    st.(threads := st.threads[st.cur := Me(st).(status := Ready)],
        ready := if st.cur == IDLE then st.ready else st.ready + [st.cur])
  }

  function IdleBlocked(st: State): State {
    st.(threads := st.threads[IDLE := Thread(Blocked, User, false)])
  }

  function Spawned(st: State): State {
    st.(threads := st.threads[st.nextTid := Thread(Ready, User, false)],
        ready := st.ready + [st.nextTid],
        nextTid := st.nextTid + 1)
  }

  function Gone(st: State): State {
    st.(threads := st.threads - {st.cur})
  }

  function Enter(st: State, s: SemaId): State {
    if s.OfLock? && s.l in st.inside then st.(inside := st.inside[s.l := st.inside[s.l] + {st.cur}]) else st
  }

  function Leave(st: State, s: SemaId): State {
    if s.OfLock? && s.l in st.inside then st.(inside := st.inside[s.l := st.inside[s.l] - {st.cur}]) else st
  }

  function SetHolder(st: State, l: nat, holder: Option<Tid>): State {
    st.(holders := st.holders[l := holder])
  }

  function Queue(st: State, c: nat): seq<nat> {
    if c in st.queues then st.queues[c] else []
  }

  /** cond_wait creates a private semaphore of value 0 and queues it. */
  function Enlist(st: State, c: nat): State {
    var w := st.nextWaiter;
    st.(semas := st.semas[Private(w) := Sema(0, [], 0, 0, 0)],
        queues := st.queues[c := Queue(st, c) + [w]],
        nextWaiter := w + 1,
        waiterOf := st.waiterOf[w := st.cur],
        origin := st.origin[w := c])
  }

  // ---------- Steps ----------

  datatype Action =
    | Call(pc: Pc)          // the running thread calls a primitive
    | Exec                  // the running thread takes the next step of the primitive it is in
    | Preempt               // the timer, or thread_yield
    | IdleBlock             // the idle thread blocks itself
    | InterruptUp(n: nat)   // an interrupt handler ups a free-standing semaphore
    | Create                // thread_create
    | Exit                  // thread_exit

  /** What the assertions at the head of each primitive demand. */
  predicate CallOk(st: State, pc: Pc) {
    match pc
    case Downing(n) => Free(n) in st.semas
    case Upping(n) => Free(n) in st.semas
    case Trying(n) => Free(n) in st.semas
    case Acquiring(l) => l in st.holders && st.holders[l] != Some(st.cur)
    case TryAcquiring(l) => l in st.holders && st.holders[l] != Some(st.cur)
    case Releasing(l) => l in st.holders && st.holders[l] == Some(st.cur)
    case Enlisting(c, l) => c in st.condLocks && st.condLocks[c] == l && l in st.holders
      && st.holders[l] == Some(st.cur)
    case Signalling(c, l, all) => c in st.condLocks && st.condLocks[c] == l && l in st.holders
      && st.holders[l] == Some(st.cur)
    case _ => false
  }

  predicate Enabled(st: State, a: Action) {
    match a
    case Call(pc) => st.cur != IDLE && Me(st).pc == User && CallOk(st, pc)
    case Exec => Me(st).pc != User
    case Preempt => !Me(st).woken
    case IdleBlock => st.cur == IDLE
    case InterruptUp(n) => !Me(st).woken && Free(n) in st.semas
    case Create => !Me(st).woken
    case Exit => st.cur != IDLE && Me(st).pc == User
  }

  /** sema_down at the test: take a unit and go on, or go to sleep. */
  function DownStep(st: State, s: SemaId): State {
    if Sem(st, s).value > 0 then GoTo(Enter(Take(st, s), s), AfterDown(Me(st).pc)) else Dispatch(Asleep(st, s))
  }

  function UpStep(st: State, s: SemaId): State {
    GoTo(Leave(Give(st, s), s), AfterUp(Me(st).pc))
  }

  function TryStep(st: State, s: SemaId, success: Pc): State {
    if Sem(st, s).value > 0 then GoTo(Enter(Take(st, s), s), success) else GoTo(st, User)
  }

  /** cond_signal pops the front of the queue; cond_broadcast does so until the queue is empty. */
  function SignalStep(st: State, c: nat, l: nat, all: bool): State {
    var q := Queue(st, c);
    if q == [] then GoTo(st, User)
    else GoTo(st.(queues := st.queues[c := q[1..]]), Waking(c, l, q[0], all))
  }

  function OtherStep(st: State): State {
    match Me(st).pc
    case Trying(n) => TryStep(st, Free(n), User)
    case TryAcquiring(l) => TryStep(st, OfLock(l), Acquired(l))
    case Acquired(l) => GoTo(SetHolder(st, l, Some(st.cur)), User)
    case Releasing(l) => GoTo(SetHolder(st, l, None), Released(l))
    case Enlisting(c, l) => GoTo(Enlist(st, c), WaitReleasing(c, l, st.nextWaiter))
    case WaitReleasing(c, l, w) => GoTo(SetHolder(st, l, None), WaitReleased(c, l, w))
    case Signalling(c, l, all) => SignalStep(st, c, l, all)
    case _ => st
  }

  function Executed(st: State): State {
    var pc := Me(st).pc;
    if WaitsOn(pc).Some? then DownStep(st, WaitsOn(pc).value)
    else if UpsNow(pc).Some? then UpStep(st, UpsNow(pc).value)
    else OtherStep(st)
  }

  function Apply(st: State, a: Action): State {
    match a
    case Call(pc) => GoTo(st, pc)
    case Exec => Executed(st)
    case Preempt => Dispatch(Yielded(st))
    case IdleBlock => Dispatch(IdleBlocked(st))
    case InterruptUp(n) => Give(st, Free(n))
    case Create => Spawned(st)
    case Exit => Dispatch(Gone(st))
  }

  /** The state after thread_start(): the initial thread runs and the idle thread is blocked. */
  function Start(values: map<nat, nat>, locks: set<nat>, condLocks: map<nat, nat>): State {
    State(
      map[IDLE := Thread(Blocked, User, false), 1 := Thread(Running, User, false)],
      1,
      [],
      (map n | n in values :: Free(n) := Sema(values[n], [], values[n], 0, 0)) +
        (map l | l in locks :: OfLock(l) := Sema(1, [], 1, 0, 0)),
      map l | l in locks :: None,
      map c | c in condLocks :: [],
      condLocks,
      2,
      0,
      map l | l in locks :: {},
      map[],
      map[])
  }

  function Run(st: State, actions: seq<Action>): State {
    if actions == [] then st else Apply(Run(st, actions[..|actions| - 1]), actions[|actions| - 1])
  }

  predicate Possible(st: State, actions: seq<Action>) {
    actions != [] ==>
      Possible(st, actions[..|actions| - 1]) && Enabled(Run(st, actions[..|actions| - 1]), actions[|actions| - 1])
  }
}
