/**
 What the synchronization primitives and the scheduler promise, for every run: any
 number of threads calling any primitives, interleaved in any way.
 */
module SynchTheorems {

  import opened Options
  import opened Synch
  import opened Sequences
  import opened SynchInvariants
  import opened SynchLocks
  import opened SynchRuns

  // ---------- Semaphores ----------

  /**
   A semaphore's value is its initial value plus ups minus downs; and while threads wait
   on it, each unit of value has a thread unblocked and on its way to test it again.
   */
  ghost predicate NoWakeupLost(st: State, s: SemaId) {
    var x := Sem(st, s);
    && x.value == x.initial + x.ups - x.downs
    && (x.waiters != [] ==> x.value <= |Woken(st, s)|)
    && (forall t :: t in Woken(st, s) ==> t == st.cur || t in st.ready)
    && (forall t :: t in x.waiters ==> t != st.cur && t !in st.ready)
  }

  lemma NoLostWakeup(st: State, s: SemaId)
    requires Inv(st) && s in st.semas
    ensures NoWakeupLost(st, s)
  {
    assert SemaOk(st, s) && WaitersOk(st, s);
    forall t | t in Woken(st, s)
      ensures t == st.cur || t in st.ready
    {
      assert ThreadOk(st, t);
    }
    forall t | t in Sem(st, s).waiters
      ensures t != st.cur && t !in st.ready
    {
      assert ListedOk(st, s, t) && ThreadOk(st, t);
    }
  }

  /** sema_try_down() and lock_try_acquire() never sleep, and take a unit exactly if there is one. */
  lemma TryNeverSleeps(st: State)
    requires Inv(st) && (Me(st).pc.Trying? || Me(st).pc.TryAcquiring?)
    ensures
      var pc, st' := Me(st).pc, Apply(st, Exec);
      var s := if pc.Trying? then Free(pc.n) else OfLock(pc.l);
      && st'.cur == st.cur && s in st.semas
      && Sem(st', s).downs == Sem(st, s).downs + (if Sem(st, s).value > 0 then 1 else 0)
      && (pc.TryAcquiring? ==> Me(st').pc == if Sem(st, s).value > 0 then Acquired(pc.l) else User)
  {
    AtSemaphore(st);
    hide Inv;
    var pc := Me(st).pc;
    var s, next := if pc.Trying? then Free(pc.n) else OfLock(pc.l), if pc.Trying? then User else Acquired(pc.l);
    assert Apply(st, Exec) == TryStep(st, s, next);
    hide Apply;
    TryMoves(st, s, next);
    hide TryStep;
  }

  lemma TryMoves(st: State, s: SemaId, pc: Pc)
    ensures
      var st' := TryStep(st, s, pc);
      && st'.cur == st.cur && Me(st').pc == (if Sem(st, s).value > 0 then pc else User)
      && Sem(st', s).downs == Sem(st, s).downs + (if Sem(st, s).value > 0 then 1 else 0)
  {
    GoToMoves(Enter(Take(st, s), s), pc);
    GoToMoves(st, User);
    hide GoTo;
  }

  // ---------- Locks ----------

  /** The value of a lock's semaphore and the number of threads inside add up to one, and a holder is that thread. */
  ghost predicate Exclusive(st: State, l: nat) {
    && OfLock(l) in st.semas && l in st.inside && l in st.holders
    && st.semas[OfLock(l)].value + |st.inside[l]| == 1
    && (st.holders[l].Some? ==> st.inside[l] == {st.holders[l].value})
  }

  lemma MutualExclusion(st: State, l: nat)
    requires Inv(st) && l in st.holders
    ensures Exclusive(st, l)
  {
    hide Structure, SemasOk, PcOk, CondOk, WaiterOk;
    assert LockOk(SyncOf(st), l);
    SyncCounts(st, OfLock(l));
  }

  // ---------- Conditions ----------

  predicate AtQueue(pc: Pc, c: nat) {
    (pc.Enlisting? || pc.Signalling?) && pc.c == c
  }

  /** A step that touches a condition's queue is taken only by the holder of its lock, so such steps never race. */
  lemma QueueIsGuarded(st: State, t: Tid, c: nat)
    requires Inv(st) && t in st.threads && AtQueue(st.threads[t].pc, c)
    ensures c in st.condLocks && st.condLocks[c] in st.holders && st.holders[st.condLocks[c]] == Some(t)
  {
    var y, pc := SyncOf(st), st.threads[t].pc;
    hide Structure, SemasOk, LockOk, CondOk, WaiterOk;
    assert y.pcs[t] == pc;
    assert PcOk(y, t, pc);
    hide Core;
    assert CondAt(pc, c, pc.l) && HoldsAt(pc, pc.l);
  }

  /**
   No signal is lost and none is made up.  A waiter's semaphore is upped at most once.
   Until then the waiter is on the queue, or the holder of the lock has popped it and is
   about to up it.  It gets past its semaphore only after the up.
   */
  ghost predicate SignalledOnce(st: State, w: nat) {
    var x := Sem(st, Private(w));
    && w in st.origin && st.origin[w] in st.condLocks
    && x.downs <= x.ups <= 1
    && (x.ups == 0 <==> w in Queue(st, st.origin[w]) || Pending(SyncOf(st), w, st.condLocks[st.origin[w]]))
    && (x.downs == 0 ==> Awaited(SyncOf(st), w))
  }

  lemma EveryWaiterSignalledOnce(st: State, w: nat)
    requires Inv(st) && w < st.nextWaiter
    ensures SignalledOnce(st, w)
  {
    var y := SyncOf(st);
    hide Structure, PcOk, LockOk, CondOk;
    assert WaiterOk(y, w);
    SyncCounts(st, Private(w));
    assert SemaOk(st, Private(w));
    assert QueueOf(y, st.origin[w]) == Queue(st, st.origin[w]);
    var l := st.condLocks[st.origin[w]];
    if Pending(y, w, l) {
      PendingNotUpped(y, w, l);
    }
    hide Inv, SyncOf, Pending, Awaited, Woken;
  }

  lemma PendingNotUpped(y: Sync, w: nat, l: nat)
    requires Core(y) && Pending(y, w, l)
    ensures Cnt(y, Private(w)).ups == 0
  {
    var t := y.holders[l].value;
    hide LockOk, CondOk, WaiterOk;
    assert PcOk(y, t, y.pcs[t]);
    hide Core;
    assert WakesAt(y.pcs[t], w);
  }

  /** cond_signal on a queue that is not empty takes the waiter that came first and was not signalled yet. */
  lemma SignalTakesOldest(st: State)
    requires Inv(st) && Me(st).pc.Signalling? && Queue(st, Me(st).pc.c) != []
    ensures
      var c, q, st' := Me(st).pc.c, Queue(st, Me(st).pc.c), Apply(st, Exec);
      && (forall w :: w in q[1..] ==> q[0] < w)
      && Me(st').pc == Waking(c, Me(st).pc.l, q[0], Me(st).pc.all)
      && Queue(st', c) == q[1..]
      && Sem(st', Private(q[0])).ups == 0
  {
    var c, q := Me(st).pc.c, Queue(st, Me(st).pc.c);
    AtSemaphore(st);
    QueueIsGuarded(st, st.cur, c);
    FrontIsOldest(st, c);
    hide Inv;
    SignalMoves(st);
    hide SignalStep;
  }

  lemma SignalMoves(st: State)
    requires Me(st).pc.Signalling? && Queue(st, Me(st).pc.c) != []
    ensures
      var c, q, st' := Me(st).pc.c, Queue(st, Me(st).pc.c), Apply(st, Exec);
      && st'.cur == st.cur && Me(st').pc == Waking(c, Me(st).pc.l, q[0], Me(st).pc.all)
      && Queue(st', c) == q[1..]
      && st'.semas == st.semas
  {
    var pc := Me(st).pc;
    var q := Queue(st, pc.c);
    assert Apply(st, Exec) == SignalStep(st, pc.c, pc.l, pc.all);
    hide Apply;
    var popped := st.(queues := st.queues[pc.c := q[1..]]);
    GoToMoves(popped, Waking(pc.c, pc.l, q[0], pc.all));
    hide GoTo;
    assert SignalStep(st, pc.c, pc.l, pc.all) == GoTo(popped, Waking(pc.c, pc.l, q[0], pc.all));
    hide SignalStep;
  }

  lemma GoToMoves(st: State, pc: Pc)
    ensures
      var st' := GoTo(st, pc);
      st'.cur == st.cur && Me(st').pc == pc && st'.queues == st.queues && st'.semas == st.semas
  {
  }

  lemma FrontIsOldest(st: State, c: nat)
    requires Inv(st) && c in st.condLocks && Queue(st, c) != []
    ensures
      var q := Queue(st, c);
      (forall w :: w in q[1..] ==> q[0] < w) && Sem(st, Private(q[0])).ups == 0
  {
    hide Structure, SemasOk, PcOk, LockOk;
    var y := SyncOf(st);
    assert CondOk(y, c);
    var q := Queue(st, c);
    assert QueueOf(y, c) == q && q[0] in q && CameTo(y, q[0], c);
    assert WaiterOk(y, q[0]);
    SyncCounts(st, Private(q[0]));
  }

  /** The step after that ups the waiter's semaphore, for the first time; a broadcast goes on from there. */
  lemma SignalUpsOnce(st: State)
    requires Inv(st) && Me(st).pc.Waking?
    ensures
      var pc, st' := Me(st).pc, Apply(st, Exec);
      && Sem(st, Private(pc.w)).ups == 0 && Sem(st', Private(pc.w)).ups == 1
      && Me(st').pc == (if pc.all then Signalling(pc.c, pc.l, true) else User)
      && st'.cur == st.cur && Queue(st', pc.c) == Queue(st, pc.c)
  {
    var pc := Me(st).pc;
    NotUppedYet(st);
    hide Inv;
    assert Apply(st, Exec) == UpStep(st, Private(pc.w));
    UpCounts(st, Private(pc.w));
    hide UpStep, Apply;
  }

  /** Whether a thread is in a broadcast of condition `c`. */
  predicate Broadcasting(pc: Pc, c: nat) {
    (pc.Signalling? || pc.Waking?) && pc.c == c && pc.all
  }

  /** A broadcast ends only when nobody is left on the queue, which only the broadcaster can touch. */
  lemma BroadcastUntilEmpty(st: State, c: nat)
    requires Inv(st) && Broadcasting(Me(st).pc, c)
    ensures
      var st' := Apply(st, Exec);
      && st'.cur == st.cur
      && (Broadcasting(Me(st').pc, c) || (Me(st').pc == User && Queue(st', c) == []))
      && (Me(st).pc.Signalling? && Queue(st, c) != [] ==> Queue(st', c) == Queue(st, c)[1..])
  {
    var pc := Me(st).pc;
    if pc.Waking? {
      SignalUpsOnce(st);
      hide Inv, Apply;
    } else if Queue(st, c) != [] {
      hide Inv;
      SignalMoves(st);
      hide Apply;
    } else {
      hide Inv;
      assert Apply(st, Exec) == SignalStep(st, c, pc.l, true);
      assert SignalStep(st, c, pc.l, true) == GoTo(st, User);
      hide Apply, SignalStep;
      GoToMoves(st, User);
    }
  }

  lemma NotUppedYet(st: State)
    requires Inv(st) && Me(st).pc.Waking?
    ensures Sem(st, Private(Me(st).pc.w)).ups == 0
  {
    AtSemaphore(st);
    MyPc(st);
    WakingNotUpped(SyncOf(st), st.cur);
    SyncCounts(st, Private(Me(st).pc.w));
    hide Inv, SyncOf;
  }

  lemma UpCounts(st: State, s: SemaId)
    ensures var st' := UpStep(st, s); Sem(st', s).ups == Sem(st, s).ups + 1
    ensures var st' := UpStep(st, s); st'.cur == st.cur && st'.queues == st.queues && Me(st').pc == AfterUp(Me(st).pc)
  {
    var given := Leave(Give(st, s), s);
    GiveParts(st, s);
    hide Give;
    GoToMoves(given, AfterUp(Me(st).pc));
    hide GoTo;
  }

  lemma GiveParts(st: State, s: SemaId)
    ensures
      var st' := Give(st, s);
      st'.cur == st.cur && st'.queues == st.queues && Sem(st', s).ups == Sem(st, s).ups + 1
  {
  }

  lemma WakingNotUpped(y: Sync, t: Tid)
    requires Core(y) && t in y.pcs && y.pcs[t].Waking?
    ensures Cnt(y, Private(y.pcs[t].w)).ups == 0
  {
    hide LockOk, CondOk, WaiterOk;
    assert PcOk(y, t, y.pcs[t]);
    hide Core;
    assert WakesAt(y.pcs[t], y.pcs[t].w);
  }

  // ---------- The scheduler ----------

  /** One thread runs, and the ready list holds each ready thread but the idle one, once. */
  ghost predicate Scheduled(st: State) {
    && (forall t :: t in st.threads ==> (st.threads[t].status == Running <==> t == st.cur))
    && NoDup(st.ready)
    && (forall t :: t in st.threads ==> (t in st.ready <==> t != IDLE && st.threads[t].status == Ready))
    && (forall t :: t in st.ready ==> t in st.threads)
  }

  lemma OneRuns(st: State)
    requires Inv(st)
    ensures Scheduled(st)
  {
    hide Core, SemasOk, WaitersOk;
    forall t | t in st.threads
      ensures t in st.ready <==> t != IDLE && st.threads[t].status == Ready
    {
      assert ThreadOk(st, t);
    }
  }

  /** What holds of a state whoever is about to do what. */
  ghost predicate Safe(st: State) {
    && Scheduled(st)
    && (forall s :: s in st.semas ==> NoWakeupLost(st, s))
    && (forall l :: l in st.holders ==> Exclusive(st, l))
    && (forall w :: 0 <= w < st.nextWaiter ==> SignalledOnce(st, w))
  }

  /** Every state that a run from thread_start() can reach is safe. */
  lemma EveryRunIsSafe(values: map<nat, nat>, locks: set<nat>, condLocks: map<nat, nat>, actions: seq<Action>)
    requires forall c :: c in condLocks ==> condLocks[c] in locks
    requires Possible(Start(values, locks, condLocks), actions)
    ensures Safe(Run(Start(values, locks, condLocks), actions))
  {
    hide Inv, Start, Scheduled, NoWakeupLost, Exclusive, SignalledOnce;
    var st := Run(Start(values, locks, condLocks), actions);
    StartInv(values, locks, condLocks);
    RunKept(Start(values, locks, condLocks), actions);
    hide Run;
    OneRuns(st);
    forall s | s in st.semas
      ensures NoWakeupLost(st, s)
    {
      NoLostWakeup(st, s);
    }
    forall l | l in st.holders
      ensures Exclusive(st, l)
    {
      MutualExclusion(st, l);
    }
    forall w | 0 <= w < st.nextWaiter
      ensures SignalledOnce(st, w)
    {
      EveryWaiterSignalledOnce(st, w);
    }
  }

  /** Whether a step calls schedule(). */
  predicate Switches(st: State, a: Action) {
    match a
    case Preempt => true
    case IdleBlock => true
    case Exit => true
    case Exec => WaitsOn(Me(st).pc).Some? && Sem(st, WaitsOn(Me(st).pc).value).value == 0
    case _ => false
  }

  function SwitchCount(st: State, actions: seq<Action>): nat {
    if actions == [] then 0
    else
      var front := actions[..|actions| - 1];
      SwitchCount(st, front) + if Switches(Run(st, front), actions[|actions| - 1]) then 1 else 0
  }

  /** From one state to the next: the ready list grows at the back, and a switch takes its front and runs it. */
  ghost predicate Queued(st: State, st': State, switch: bool) {
    if !switch then st.ready <= st'.ready
    else st.ready != [] ==> st'.cur == st.ready[0] && st.ready[1..] <= st'.ready
  }

  lemma ReadyIsQueue(st: State, a: Action)
    requires Inv(st) && Enabled(st, a)
    ensures Queued(st, Apply(st, a), Switches(st, a))
  {
    hide Inv, NoDup, Dispatch, Executed, Switches;
    ReadyFront(st);
    match a
    case Exec =>
      AtSemaphore(st);
      ExecReady(st);
    case Preempt =>
      DispatchReady(Yielded(st));
      SwitchOf(st, a);
    case Exit =>
      DispatchReady(Gone(st));
      SwitchOf(st, a);
    case IdleBlock =>
      DispatchReady(IdleBlocked(st));
      SwitchOf(st, a);
    case _ =>
      SwitchOf(st, a);
  }

  lemma ReadyFront(st: State)
    requires Inv(st)
    ensures st.cur in st.threads && st.cur !in st.ready && (st.ready != [] ==> st.ready[0] in st.threads)
  {
    OneRuns(st);
    CurNotReady(st);
    hide Inv;
  }

  lemma SwitchOf(st: State, a: Action)
    requires !a.Exec?
    ensures Switches(st, a) <==> a.Preempt? || a.IdleBlock? || a.Exit?
  {
  }

  lemma CurNotReady(st: State)
    requires Scheduled(st) && st.cur in st.threads
    ensures st.cur !in st.ready
  {
  }

  lemma DispatchReady(st: State)
    requires st.ready != [] ==> st.ready[0] in st.threads
    ensures st.ready != [] ==> Dispatch(st).cur == st.ready[0] && Dispatch(st).ready == st.ready[1..]
  {
  }

  lemma ExecReady(st: State)
    requires (st.ready != [] ==> st.ready[0] in st.threads) && Me(st).pc != User
    ensures Queued(st, Executed(st), Switches(st, Exec))
  {
    hide DownStep, UpStep, OtherStep, Queued;
    var pc := Me(st).pc;
    if WaitsOn(pc).Some? {
      DownReady(st, WaitsOn(pc).value);
    } else if UpsNow(pc).Some? {
      UpReady(st, UpsNow(pc).value);
    } else {
      OtherQueued(st);
    }
  }

  lemma DownReady(st: State, s: SemaId)
    requires st.ready != [] ==> st.ready[0] in st.threads
    ensures Queued(st, DownStep(st, s), Sem(st, s).value == 0)
  {
    if Sem(st, s).value == 0 {
      DispatchReady(Asleep(st, s));
      hide Dispatch;
    }
  }

  lemma UpReady(st: State, s: SemaId)
    ensures Queued(st, UpStep(st, s), false)
  {
    assert st.ready <= Give(st, s).ready;
    hide Give;
  }

  lemma OtherQueued(st: State)
    ensures Queued(st, OtherStep(st), false)
  {
    OtherReady(st);
    hide OtherStep;
  }

  lemma OtherReady(st: State)
    ensures OtherStep(st).ready == st.ready
  {
    hide TryStep, SignalStep, GoTo, Me;
    var pc := Me(st).pc;
    if pc.Trying? {
      TryReady(st, Free(pc.n), User);
    } else if pc.TryAcquiring? {
      TryReady(st, OfLock(pc.l), Acquired(pc.l));
    } else if pc.Signalling? {
      SignalReady(st, pc.c, pc.l, pc.all);
    } else {
      forall x: State, next | x.ready == st.ready
        ensures GoTo(x, next).ready == st.ready
      {
        GoToReady(x, next);
      }
    }
  }

  lemma GoToReady(st: State, pc: Pc)
    ensures GoTo(st, pc).ready == st.ready
  {
  }

  lemma TryReady(st: State, s: SemaId, pc: Pc)
    ensures TryStep(st, s, pc).ready == st.ready
  {
    hide GoTo;
    GoToReady(st, User);
    GoToReady(Enter(Take(st, s), s), pc);
  }

  lemma SignalReady(st: State, c: nat, l: nat, all: bool)
    ensures SignalStep(st, c, l, all).ready == st.ready
  {
    hide GoTo;
    var q := Queue(st, c);
    GoToReady(st, User);
    if q != [] {
      GoToReady(st.(queues := st.queues[c := q[1..]]), Waking(c, l, q[0], all));
    }
  }

  /** A thread `k` places from the front of the ready list runs after the `k + 1`th switch from now. */
  lemma RoundRobin(st: State, actions: seq<Action>, k: nat)
    requires Inv(st) && Possible(st, actions) && k < |st.ready|
    requires actions != [] && Switches(Run(st, actions[..|actions| - 1]), actions[|actions| - 1])
    requires SwitchCount(st, actions) == k + 1
    ensures Run(st, actions).cur == st.ready[k]
  {
    hide Inv, Enabled, Apply, Switches;
    var front := actions[..|actions| - 1];
    Advance(st, front);
    RunKept(st, front);
    ReadyIsQueue(Run(st, front), actions[|actions| - 1]);
  }

  /** Until its turn, a thread gets nearer the front by one place at each switch. */
  lemma {:induction false} Advance(st: State, actions: seq<Action>)
    requires Inv(st) && Possible(st, actions) && SwitchCount(st, actions) <= |st.ready|
    ensures st.ready[SwitchCount(st, actions)..] <= Run(st, actions).ready
  {
    hide Inv, Enabled, Apply, Switches;
    if actions != [] {
      var front := actions[..|actions| - 1];
      Advance(st, front);
      RunKept(st, front);
      ReadyIsQueue(Run(st, front), actions[|actions| - 1]);
    }
  }

  // ---------- Semaphores serve waiters in order ----------

  /**
   A semaphore's waiters are a queue: an up moves the front to the ready list, and
   between ups the running thread may join at the back.
   */
  ghost predicate Served(st: State, st': State, s: SemaId) {
    var x, x' := Sem(st, s), Sem(st', s);
    && s in st'.semas
    && if x'.ups == x.ups then
         x'.waiters == x.waiters || x'.waiters == x.waiters + [st.cur]
       else
         && x'.ups == x.ups + 1
         && if x.waiters == [] then x'.waiters == []
            else x'.waiters == x.waiters[1..] && st'.ready == st.ready + [x.waiters[0]]
  }

  /** A step that neither ups a semaphore nor waits on it. */
  ghost predicate SameQueue(st: State, st': State, s: SemaId) {
    && (s in st.semas ==> s in st'.semas)
    && Sem(st', s).waiters == Sem(st, s).waiters && Sem(st', s).ups == Sem(st, s).ups
  }

  /** How often `s` is upped on the way. */
  function UpCount(st: State, actions: seq<Action>, s: SemaId): int {
    Sem(Run(st, actions), s).ups - Sem(st, s).ups
  }

  /** A thread with `k` others before it among the waiters is the one that the `k + 1`th up from now unblocks. */
  lemma WaitersServedInOrder(st: State, actions: seq<Action>, s: SemaId, k: nat)
    requires Inv(st) && Possible(st, actions) && s in st.semas && k < |Sem(st, s).waiters|
    requires actions != [] && UpCount(st, actions[..|actions| - 1], s) == k && UpCount(st, actions, s) == k + 1
    ensures Run(st, actions).ready == Run(st, actions[..|actions| - 1]).ready + [Sem(st, s).waiters[k]]
  {
    hide Inv, Enabled, Apply;
    var front := actions[..|actions| - 1];
    WaitersAdvance(st, front, s);
    RunKept(st, front);
    WaitersAreQueue(Run(st, front), actions[|actions| - 1], s);
  }

  /** Until its turn, a waiter gets nearer the front by one place at each up. */
  lemma {:induction false} WaitersAdvance(st: State, actions: seq<Action>, s: SemaId)
    requires Inv(st) && Possible(st, actions) && s in st.semas
    ensures s in Run(st, actions).semas && UpCount(st, actions, s) >= 0
    ensures
      var x, ups := Sem(st, s).waiters, UpCount(st, actions, s);
      ups <= |x| ==> x[ups..] <= Sem(Run(st, actions), s).waiters
  {
    hide Inv, Enabled, Apply;
    if actions != [] {
      var front := actions[..|actions| - 1];
      WaitersAdvance(st, front, s);
      RunKept(st, front);
      WaitersAreQueue(Run(st, front), actions[|actions| - 1], s);
    }
  }

  lemma WaitersAreQueue(st: State, a: Action, s: SemaId)
    requires Inv(st) && Enabled(st, a) && s in st.semas
    ensures Served(st, Apply(st, a), s)
  {
    hide Inv, Served, Executed, Dispatch, Give;
    match a
    case Exec =>
      ExecServed(st, s);
    case InterruptUp(n) =>
      GiveServed(st, Free(n), s);
    case Preempt =>
      SameServed(st, Yielded(st), s);
    case IdleBlock =>
      SameServed(st, IdleBlocked(st), s);
    case Exit =>
      SameServed(st, Gone(st), s);
    case Call(pc) =>
      CallServed(st, pc, s);
    case Create =>
      CreateServed(st, s);
  }

  lemma SameServed(st: State, st1: State, s: SemaId)
    requires st1.semas == st.semas && s in st.semas
    ensures Served(st, Dispatch(st1), s)
  {
  }

  lemma CallServed(st: State, pc: Pc, s: SemaId)
    requires s in st.semas
    ensures Served(st, GoTo(st, pc), s)
  {
  }

  lemma CreateServed(st: State, s: SemaId)
    requires s in st.semas
    ensures Served(st, Spawned(st), s)
  {
  }

  lemma GiveServed(st: State, q: SemaId, s: SemaId)
    requires Inv(st) && q in st.semas && s in st.semas
    ensures Served(st, Give(st, q), s)
  {
    hide Inv, NoDup, Structure;
    GiveElsewhere(st, q, s);
    if st.semas[q].waiters != [] {
      FrontThere(st, q);
      GiveFront(st, q);
    }
    hide Give;
  }

  lemma FrontThere(st: State, q: SemaId)
    requires Inv(st) && q in st.semas && st.semas[q].waiters != []
    ensures st.semas[q].waiters[0] in st.threads
  {
    FrontWaiter(st, q);
  }

  lemma GiveFront(st: State, q: SemaId)
    requires q in st.semas && st.semas[q].waiters != [] && st.semas[q].waiters[0] in st.threads
    ensures
      var x, st' := st.semas[q].waiters, Give(st, q);
      Sem(st', q).waiters == x[1..] && st'.ready == st.ready + [x[0]] && Sem(st', q).ups == Sem(st, q).ups + 1
  {
  }

  lemma GiveSemas(st: State, q: SemaId)
    ensures
      var x := Sem(st, q);
      var rest := if x.waiters == [] then [] else x.waiters[1..];
      Give(st, q).semas == st.semas[q := x.(value := x.value + 1, waiters := rest, ups := x.ups + 1)]
  {
  }

  lemma GiveElsewhere(st: State, q: SemaId, s: SemaId)
    ensures s in st.semas ==> s in Give(st, q).semas
    ensures s != q ==> Sem(Give(st, q), s) == Sem(st, s)
    ensures Sem(st, q).waiters == [] ==>
      Sem(Give(st, q), q).waiters == [] && Sem(Give(st, q), q).ups == Sem(st, q).ups + 1
  {
    GiveSemas(st, q);
    hide Give;
  }

  lemma UpServed(st: State, q: SemaId, s: SemaId)
    requires Inv(st) && q in st.semas && s in st.semas
    ensures Served(st, UpStep(st, q), s)
  {
    GiveServed(st, q, s);
    hide Inv, Give;
    var given := Leave(Give(st, q), q);
    GoToMoves(given, AfterUp(Me(st).pc));
    GoToReady(given, AfterUp(Me(st).pc));
    hide GoTo;
  }

  lemma DownServed(st: State, q: SemaId, s: SemaId)
    requires s in st.semas
    ensures Served(st, DownStep(st, q), s)
  {
    if Sem(st, q).value == 0 {
      AsleepCount(st, q, s);
      hide Asleep, Dispatch;
    } else {
      TakeServed(st, q, s);
      GoToMoves(Enter(Take(st, q), q), AfterDown(Me(st).pc));
      hide GoTo, Take;
    }
  }

  lemma TakeServed(st: State, q: SemaId, s: SemaId)
    ensures SameQueue(st, Take(st, q), s)
  {
  }

  lemma TryServed(st: State, q: SemaId, pc: Pc, s: SemaId)
    ensures SameQueue(st, TryStep(st, q, pc), s)
  {
    TakeServed(st, q, s);
    GoToMoves(Enter(Take(st, q), q), pc);
    GoToMoves(st, User);
    hide GoTo, Take;
  }

  lemma SignalServed(st: State, c: nat, l: nat, all: bool, s: SemaId)
    ensures SameQueue(st, SignalStep(st, c, l, all), s)
  {
    var q := Queue(st, c);
    GoToMoves(st, User);
    if q != [] {
      GoToMoves(st.(queues := st.queues[c := q[1..]]), Waking(c, l, q[0], all));
    }
    hide GoTo;
  }

  lemma EnlistServed(st: State, c: nat, s: SemaId)
    requires s != Private(st.nextWaiter)
    ensures SameQueue(st, Enlist(st, c), s)
  {
  }

  lemma NotNew(st: State, s: SemaId)
    requires Inv(st) && s in st.semas
    ensures s != Private(st.nextWaiter)
  {
    NewWaiter(st);
  }

  lemma OtherServed(st: State, s: SemaId)
    requires Inv(st) && s in st.semas
    ensures SameQueue(st, OtherStep(st), s)
  {
    hide TryStep, SignalStep, GoTo, Me, Inv, Enlist, SetHolder, Sem;
    NotNew(st, s);
    var pc := Me(st).pc;
    if pc.Trying? {
      TryServed(st, Free(pc.n), User, s);
    } else if pc.TryAcquiring? {
      TryServed(st, OfLock(pc.l), Acquired(pc.l), s);
    } else if pc.Signalling? {
      SignalServed(st, pc.c, pc.l, pc.all, s);
    } else if pc.Enlisting? {
      EnlistServed(st, pc.c, s);
      MovedServed(Enlist(st, pc.c), WaitReleasing(pc.c, pc.l, st.nextWaiter), s);
    } else if pc.Acquired? {
      HolderServed(st, pc.l, Some(st.cur), User, s);
    } else if pc.Releasing? {
      HolderServed(st, pc.l, None, Released(pc.l), s);
    } else if pc.WaitReleasing? {
      HolderServed(st, pc.l, None, WaitReleased(pc.c, pc.l, pc.w), s);
    }
  }

  lemma MovedServed(st: State, pc: Pc, s: SemaId)
    ensures SameQueue(st, GoTo(st, pc), s)
  {
  }

  lemma HolderServed(st: State, l: nat, holder: Option<Tid>, pc: Pc, s: SemaId)
    ensures SameQueue(st, GoTo(SetHolder(st, l, holder), pc), s)
  {
    MovedServed(SetHolder(st, l, holder), pc, s);
    hide GoTo;
  }

  lemma ExecServed(st: State, s: SemaId)
    requires Inv(st) && Me(st).pc != User && s in st.semas
    ensures Served(st, Executed(st), s)
  {
    hide Inv, DownStep, UpStep, OtherStep;
    AtSemaphore(st);
    var pc := Me(st).pc;
    if WaitsOn(pc).Some? {
      DownServed(st, WaitsOn(pc).value, s);
    } else if UpsNow(pc).Some? {
      UpServed(st, UpsNow(pc).value, s);
    } else {
      OtherServed(st, s);
    }
  }
}
