/**
 What each call of a primitive does, stated on the fields of the state: which semaphore
 gains or loses a unit, who waits, who becomes ready, who holds a lock, who runs next.
 */
module SynchSteps {

  import opened Options
  import opened Synch
  import opened SynchInvariants
  import opened SynchRuns
  import SynchTheorems

  // ---------- What can happen in one step ----------

  /** Threads other than those in `but` are as they were. */
  ghost predicate ThreadsKept(st: State, st': State, but: set<Tid>) {
    forall t :: t !in but ==>
      (t in st'.threads <==> t in st.threads) && (t in st.threads ==> st'.threads[t] == st.threads[t])
  }

  /** Semaphores other than those in `but` are as they were, and none is gone. */
  ghost predicate SemasKept(st: State, st': State, but: set<SemaId>) {
    forall s :: s !in but ==> (s in st'.semas <==> s in st.semas) && (s in st.semas ==> st'.semas[s] == st.semas[s])
  }

  /** Locks, conditions and the supply of new threads and waiters are as they were. */
  ghost predicate RestKept(st: State, st': State) {
    && st'.holders == st.holders && st'.queues == st.queues && st'.condLocks == st.condLocks
    && st'.nextTid == st.nextTid && st'.nextWaiter == st.nextWaiter
  }

  /** The running thread goes on running, and is at `pc` now. */
  ghost predicate GoesOn(st: State, st': State, pc: Pc) {
    st'.cur == st.cur && st.cur in st'.threads && st'.threads[st.cur] == Thread(Running, pc, false)
  }

  /** `s` gains a unit, and the thread that has waited longest, if any, becomes ready at the back of the list. */
  ghost predicate Upped(st: State, st': State, s: SemaId) {
    && s in st.semas && s in st'.semas && SemasKept(st, st', {s})
    && var x := st.semas[s];
       if x.waiters == [] then
         && st'.semas[s] == x.(value := x.value + 1, ups := x.ups + 1)
         && st'.ready == st.ready && ThreadsKept(st, st', {st.cur})
       else
         var t := x.waiters[0];
         && st'.semas[s] == x.(value := x.value + 1, ups := x.ups + 1, waiters := x.waiters[1..])
         && t != st.cur && t in st.threads && st.threads[t].status == Blocked
         && t in st'.threads && st'.threads[t] == Thread(Ready, st.threads[t].pc, true)
         && st'.ready == st.ready + [t] && ThreadsKept(st, st', {st.cur, t})
  }

  /** `s` had a unit to spare; it is taken, and nobody else notices. */
  ghost predicate Downed(st: State, st': State, s: SemaId) {
    && s in st.semas && s in st'.semas && SemasKept(st, st', {s})
    && st.semas[s].value > 0
    && st'.semas[s] == st.semas[s].(value := st.semas[s].value - 1, downs := st.semas[s].downs + 1)
    && st'.ready == st.ready && ThreadsKept(st, st', {st.cur})
  }

  /** The front of the ready list runs, or the idle thread if nobody is ready. */
  ghost predicate Switched(st: State, ready: seq<Tid>, st': State) {
    && st'.cur == (if ready == [] then IDLE else ready[0])
    && st'.ready == (if ready == [] then [] else ready[1..])
    && st'.cur in st'.threads && st'.threads[st'.cur].status == Running
    && (st'.cur in st.threads && st'.cur != st.cur ==>
          st'.threads[st'.cur].pc == st.threads[st'.cur].pc && st'.threads[st'.cur].woken == st.threads[st'.cur].woken)
  }

  /** The running thread waits at the back of `s`, blocked at the test, and another thread runs. */
  ghost predicate Sleeps(st: State, st': State, s: SemaId) {
    && s in st.semas && s in st'.semas && SemasKept(st, st', {s})
    && st.semas[s].value == 0
    && st'.semas[s] == st.semas[s].(waiters := st.semas[s].waiters + [st.cur])
    && st.cur in st.threads && st.cur in st'.threads
    && st'.cur != st.cur && st'.threads[st.cur] == Thread(Blocked, st.threads[st.cur].pc, false)
    && Switched(st, st.ready, st') && ThreadsKept(st, st', {st.cur, st'.cur})
  }

  // ---------- Pieces ----------

  lemma CurThere(st: State)
    requires Inv(st)
    ensures st.cur in st.threads && st.cur !in st.ready && IDLE in st.threads
    ensures forall t :: t in st.ready ==> t in st.threads
    ensures Me(st).pc != User ==> st.cur != IDLE
  {
    assert ThreadOk(st, st.cur) && st.threads[st.cur].status == Running;
  }

  /** States that differ at most in who is inside which lock. */
  ghost predicate SameButInside(st: State, st': State) {
    st' == st.(inside := st'.inside)
  }

  lemma InsideOnly(st: State, s: SemaId)
    ensures SameButInside(st, Enter(st, s)) && SameButInside(st, Leave(st, s))
  {
  }

  lemma GoToFields(st: State, pc: Pc)
    ensures GoTo(st, pc) == st.(threads := st.threads[st.cur := Thread(Running, pc, false)])
  {
  }

  lemma GiveToNobody(st: State, s: SemaId)
    requires s in st.semas && st.semas[s].waiters == []
    ensures
      var x, st' := st.semas[s], Give(st, s);
      && st' == st.(semas := st.semas[s := x.(value := x.value + 1, ups := x.ups + 1)])
      && Upped(st, st', s) && RestKept(st, st') && ThreadsKept(st, st', {})
  {
    var x := st.semas[s];
    assert Give(st, s) == st.(semas := st.semas[s := x.(value := x.value + 1, ups := x.ups + 1)]);
    hide Give;
  }

  lemma GiveToFront(st: State, s: SemaId)
    requires s in st.semas && st.semas[s].waiters != []
    requires
      var t := st.semas[s].waiters[0];
      t in st.threads && t != st.cur && st.threads[t].status == Blocked
    ensures
      var st' := Give(st, s);
      && st'.cur == st.cur
      && Upped(st, st', s) && RestKept(st, st') && ThreadsKept(st, st', {st.semas[s].waiters[0]})
  {
    var x, t := st.semas[s], st.semas[s].waiters[0];
    assert Give(st, s) ==
      st.(semas := st.semas[s := x.(value := x.value + 1, ups := x.ups + 1, waiters := x.waiters[1..])],
          threads := st.threads[t := Thread(Ready, st.threads[t].pc, true)],
          ready := st.ready + [t]);
    hide Give;
  }

  lemma FrontBlocked(st: State, s: SemaId)
    requires Inv(st) && s in st.semas && st.semas[s].waiters != []
    ensures
      var t := st.semas[s].waiters[0];
      t in st.threads && t != st.cur && st.threads[t].status == Blocked
  {
    FrontWaiter(st, s);
    assert st.cur in st.threads && st.threads[st.cur].status == Running;
  }

  /** An up by an interrupt handler: the running thread goes on as it was. */
  lemma GiveEffect(st: State, s: SemaId)
    requires Inv(st) && s in st.semas
    ensures
      var st' := Give(st, s);
      Upped(st, st', s) && RestKept(st, st') && st'.cur == st.cur && st.cur in st.threads
        && ThreadsKept(st, st', Woke(st, s))
  {
    hide Inv, Give, Upped, RestKept, ThreadsKept;
    CurThere(st);
    if st.semas[s].waiters == [] {
      GiveToNobody(st, s);
    } else {
      FrontBlocked(st, s);
      GiveToFront(st, s);
    }
  }

  /** The thread that an up of `s` wakes, if any. */
  ghost function Woke(st: State, s: SemaId): set<Tid> {
    if s in st.semas && st.semas[s].waiters != [] then {st.semas[s].waiters[0]} else {}
  }

  lemma UppedMoves(st: State, st1: State, st2: State, s: SemaId, pc: Pc)
    requires Upped(st, st1, s) && RestKept(st, st1) && st1.cur == st.cur && SameButInside(st1, st2)
    ensures
      var st' := GoTo(st2, pc);
      Upped(st, st', s) && GoesOn(st, st', pc) && RestKept(st, st')
  {
    GoToFields(st2, pc);
    hide GoTo;
  }

  /** An up by the running thread, which then goes on at `pc`. */
  lemma UpEffect(st: State, s: SemaId, pc: Pc)
    requires Inv(st) && s in st.semas
    ensures
      var st' := GoTo(Leave(Give(st, s), s), pc);
      Upped(st, st', s) && GoesOn(st, st', pc) && RestKept(st, st')
  {
    hide Inv, Give, Leave, GoTo, Upped, RestKept, GoesOn, ThreadsKept;
    GiveEffect(st, s);
    InsideOnly(Give(st, s), s);
    UppedMoves(st, Give(st, s), Leave(Give(st, s), s), s, pc);
  }

  /** The test of sema_down() with a unit to spare. */
  lemma DownEffect(st: State, s: SemaId, pc: Pc)
    requires s in st.semas && st.semas[s].value > 0
    ensures
      var st' := GoTo(Enter(Take(st, s), s), pc);
      Downed(st, st', s) && GoesOn(st, st', pc) && RestKept(st, st')
  {
    TakeFields(st, s);
    hide Take, Enter, GoTo;
    InsideOnly(Take(st, s), s);
    GoToFields(Enter(Take(st, s), s), pc);
  }

  lemma TakeFields(st: State, s: SemaId)
    requires s in st.semas && st.semas[s].value > 0
    ensures Take(st, s) ==
      st.(semas := st.semas[s := st.semas[s].(value := st.semas[s].value - 1, downs := st.semas[s].downs + 1)])
  {
  }

  lemma AsleepFields(st: State, s: SemaId)
    requires s in st.semas && st.cur in st.threads
    ensures Asleep(st, s) ==
      st.(semas := st.semas[s := st.semas[s].(waiters := st.semas[s].waiters + [st.cur])],
          threads := st.threads[st.cur := Thread(Blocked, st.threads[st.cur].pc, false)])
  {
  }

  lemma DispatchFields(st: State)
    requires (if st.ready == [] then IDLE else st.ready[0]) in st.threads
    ensures
      var next := if st.ready == [] then IDLE else st.ready[0];
      Dispatch(st) ==
        st.(cur := next, ready := if st.ready == [] then [] else st.ready[1..],
            threads := st.threads[next := st.threads[next].(status := Running)])
  {
  }

  /** A switch after the running thread, and perhaps the ready list, has changed. */
  lemma SwitchEffect(st: State, st1: State)
    requires st1 == st.(threads := st1.threads, ready := st1.ready) && ThreadsKept(st, st1, {st.cur})
    requires (if st1.ready == [] then IDLE else st1.ready[0]) in st1.threads
    ensures
      var st' := Dispatch(st1);
      && st'.cur == (if st1.ready == [] then IDLE else st1.ready[0]) && st'.cur in st'.threads
      && Switched(st, st1.ready, st') && ThreadsKept(st, st', {st.cur, st'.cur})
      && RestKept(st, st') && st'.semas == st.semas
      && (st'.cur != st.cur ==>
            && (st.cur in st'.threads <==> st.cur in st1.threads)
            && (st.cur in st1.threads ==> st'.threads[st.cur] == st1.threads[st.cur]))
      && (st'.cur == st.cur ==> st'.threads[st.cur] == st1.threads[st.cur].(status := Running))
  {
    DispatchFields(st1);
    hide Dispatch;
  }

  lemma SleepEffect(st: State, s: SemaId)
    requires Inv(st) && s in st.semas && st.semas[s].value == 0 && st.cur != IDLE
    ensures
      var st' := Dispatch(Asleep(st, s));
      Sleeps(st, st', s) && RestKept(st, st')
  {
    hide Inv, Asleep, Dispatch;
    CurThere(st);
    AsleepFields(st, s);
    DispatchFields(Asleep(st, s));
  }

  // ---------- Semaphores ----------

  lemma SemaThere(st: State)
    requires Inv(st)
    ensures
      var pc := Me(st).pc;
      && (pc.Upping? || pc.Downing? || pc.Trying? ==> Free(pc.n) in st.semas)
      && (pc.Acquiring? || pc.TryAcquiring? || pc.Released? || pc.WaitReleased? ==> OfLock(pc.l) in st.semas)
      && (pc.Waiting? || pc.Waking? ==> Private(pc.w) in st.semas)
  {
    if Me(st).pc != User {
      AtSemaphore(st);
    }
  }

  /** A step that is an up of `s`. */
  lemma ExecUps(st: State, s: SemaId, pc: Pc)
    requires Inv(st) && s in st.semas
    requires WaitsOn(Me(st).pc) == None && UpsNow(Me(st).pc) == Some(s) && AfterUp(Me(st).pc) == pc
    ensures
      var st' := Apply(st, Exec);
      Upped(st, st', s) && GoesOn(st, st', pc) && RestKept(st, st')
  {
    assert Apply(st, Exec) == GoTo(Leave(Give(st, s), s), pc) by {
      hide Inv, Give, Leave, GoTo;
    }
    hide Inv, Upped, GoesOn, RestKept, Apply, Give, Leave, GoTo;
    UpEffect(st, s, pc);
  }

  /** A step that is the test of `s`. */
  lemma ExecTests(st: State, s: SemaId, pc: Pc)
    requires Inv(st) && s in st.semas && WaitsOn(Me(st).pc) == Some(s) && AfterDown(Me(st).pc) == pc
    ensures
      var st' := Apply(st, Exec);
      && RestKept(st, st')
      && if Sem(st, s).value > 0 then Downed(st, st', s) && GoesOn(st, st', pc) else Sleeps(st, st', s)
  {
    CurThere(st);
    assert Apply(st, Exec) == DownStep(st, s) by {
      hide Inv, DownStep;
    }
    hide Inv, Downed, Sleeps, GoesOn, RestKept, Apply, Take, Enter, GoTo, Asleep, Dispatch;
    TestEffect(st, s, pc);
  }

  /** sema_up(): a unit more, and the longest-waiting thread is ready. */
  lemma SemaUp(st: State)
    requires Inv(st) && Me(st).pc.Upping?
    ensures
      var st' := Apply(st, Exec);
      Upped(st, st', Free(Me(st).pc.n)) && GoesOn(st, st', User) && RestKept(st, st')
  {
    SemaThere(st);
    hide Inv, Upped, GoesOn, RestKept, Apply;
    ExecUps(st, Free(Me(st).pc.n), User);
  }

  /** sema_up() called by an interrupt handler: the same, and the running thread is where it was. */
  lemma SemaUpInInterrupt(st: State, n: nat)
    requires Inv(st) && Enabled(st, InterruptUp(n))
    ensures
      var st' := Apply(st, InterruptUp(n));
      && Upped(st, st', Free(n)) && RestKept(st, st')
      && st'.cur == st.cur && st.cur in st.threads && st.cur in st'.threads && st'.threads[st.cur] == st.threads[st.cur]
  {
    GiveEffect(st, Free(n));
    if st.semas[Free(n)].waiters != [] {
      FrontBlocked(st, Free(n));
    }
    hide Inv, Upped, RestKept, Give;
  }

  /** sema_down() at its test: a unit is taken and the call returns, or the thread waits. */
  lemma SemaDown(st: State)
    requires Inv(st) && Me(st).pc.Downing?
    ensures
      var s, st' := Free(Me(st).pc.n), Apply(st, Exec);
      && RestKept(st, st')
      && if Sem(st, s).value > 0 then Downed(st, st', s) && GoesOn(st, st', User) else Sleeps(st, st', s)
  {
    SemaThere(st);
    hide Inv, Downed, Sleeps, GoesOn, RestKept, Apply;
    ExecTests(st, Free(Me(st).pc.n), User);
  }

  lemma TestEffect(st: State, s: SemaId, pc: Pc)
    requires Inv(st) && s in st.semas && st.cur != IDLE
    ensures
      var st' := if Sem(st, s).value > 0 then GoTo(Enter(Take(st, s), s), pc) else Dispatch(Asleep(st, s));
      && RestKept(st, st')
      && if Sem(st, s).value > 0 then Downed(st, st', s) && GoesOn(st, st', pc) else Sleeps(st, st', s)
  {
    hide Inv, Downed, Sleeps, GoesOn, RestKept, Take, Enter, GoTo, Asleep, Dispatch;
    if Sem(st, s).value > 0 {
      DownEffect(st, s, pc);
    } else {
      SleepEffect(st, s);
    }
  }

  /** Nothing has changed but where the running thread is. */
  ghost predicate OnlyMoves(st: State, st': State, pc: Pc) {
    && GoesOn(st, st', pc) && RestKept(st, st')
    && st'.semas == st.semas && st'.ready == st.ready && ThreadsKept(st, st', {st.cur})
  }

  lemma MoveEffect(st: State, pc: Pc)
    ensures OnlyMoves(st, GoTo(st, pc), pc)
  {
    GoToFields(st, pc);
    hide GoTo;
  }

  /** sema_try_down(): a unit is taken if there is one; the call returns at once. */
  lemma SemaTryDown(st: State)
    requires Inv(st) && Me(st).pc.Trying?
    ensures
      var s, st' := Free(Me(st).pc.n), Apply(st, Exec);
      if Sem(st, s).value > 0 then Downed(st, st', s) && GoesOn(st, st', User) && RestKept(st, st')
      else OnlyMoves(st, st', User)
  {
    SemaThere(st);
    hide Inv, Downed, GoesOn, RestKept, OnlyMoves;
    TryEffect(st, Free(Me(st).pc.n), User);
    hide TryStep;
  }

  lemma TryEffect(st: State, s: SemaId, pc: Pc)
    requires s in st.semas
    ensures
      var st' := TryStep(st, s, pc);
      if Sem(st, s).value > 0 then Downed(st, st', s) && GoesOn(st, st', pc) && RestKept(st, st')
      else OnlyMoves(st, st', User)
  {
    hide Downed, GoesOn, RestKept, OnlyMoves, Take, Enter, GoTo;
    if Sem(st, s).value > 0 {
      DownEffect(st, s, pc);
    } else {
      MoveEffect(st, User);
    }
  }

  // ---------- Locks ----------

  /** Nothing has changed but who holds lock `l`, and where the running thread is. */
  ghost predicate HolderChanges(st: State, st': State, l: nat, holder: Option<Tid>, pc: Pc) {
    && GoesOn(st, st', pc) && st'.semas == st.semas && st'.ready == st.ready && ThreadsKept(st, st', {st.cur})
    && st'.holders == st.holders[l := holder] && st'.queues == st.queues && st'.condLocks == st.condLocks
    && st'.nextTid == st.nextTid && st'.nextWaiter == st.nextWaiter
  }

  lemma HolderEffect(st: State, l: nat, holder: Option<Tid>, pc: Pc)
    ensures HolderChanges(st, GoTo(SetHolder(st, l, holder), pc), l, holder, pc)
  {
    GoToFields(SetHolder(st, l, holder), pc);
    hide GoTo;
  }

  /** lock_acquire() at the test of the lock's semaphore. */
  lemma LockAcquire(st: State)
    requires Inv(st) && Me(st).pc.Acquiring?
    ensures
      var l, st' := Me(st).pc.l, Apply(st, Exec);
      && RestKept(st, st')
      && if Sem(st, OfLock(l)).value > 0 then Downed(st, st', OfLock(l)) && GoesOn(st, st', Acquired(l))
         else Sleeps(st, st', OfLock(l))
  {
    SemaThere(st);
    hide Inv, Downed, Sleeps, GoesOn, RestKept, Apply;
    ExecTests(st, OfLock(Me(st).pc.l), Acquired(Me(st).pc.l));
  }

  /** Past the semaphore, the thread becomes the holder. */
  lemma LockAcquired(st: State)
    requires Me(st).pc.Acquired?
    ensures HolderChanges(st, Apply(st, Exec), Me(st).pc.l, Some(st.cur), User)
  {
    hide HolderChanges;
    HolderEffect(st, Me(st).pc.l, Some(st.cur), User);
    hide GoTo, SetHolder;
  }

  /** lock_try_acquire() */
  lemma LockTryAcquire(st: State)
    requires Inv(st) && Me(st).pc.TryAcquiring?
    ensures
      var l, st' := Me(st).pc.l, Apply(st, Exec);
      if Sem(st, OfLock(l)).value > 0 then
        Downed(st, st', OfLock(l)) && GoesOn(st, st', Acquired(l)) && RestKept(st, st')
      else OnlyMoves(st, st', User)
  {
    SemaThere(st);
    hide Inv, Downed, GoesOn, RestKept, OnlyMoves;
    TryEffect(st, OfLock(Me(st).pc.l), Acquired(Me(st).pc.l));
    hide TryStep;
  }

  /** lock_release() clears the holder first. */
  lemma LockReleasing(st: State)
    requires Me(st).pc.Releasing?
    ensures HolderChanges(st, Apply(st, Exec), Me(st).pc.l, None, Released(Me(st).pc.l))
  {
    hide HolderChanges;
    HolderEffect(st, Me(st).pc.l, None, Released(Me(st).pc.l));
    hide GoTo, SetHolder;
  }

  /** Then it ups the lock's semaphore. */
  lemma LockReleased(st: State)
    requires Inv(st) && Me(st).pc.Released?
    ensures
      var st' := Apply(st, Exec);
      Upped(st, st', OfLock(Me(st).pc.l)) && GoesOn(st, st', User) && RestKept(st, st')
  {
    SemaThere(st);
    hide Inv, Upped, GoesOn, RestKept, Apply;
    ExecUps(st, OfLock(Me(st).pc.l), User);
  }

  // ---------- Conditions ----------

  /** cond_wait() joins the queue with a private semaphore of value 0. */
  lemma CondJoin(st: State)
    requires Me(st).pc.Enlisting?
    ensures
      var pc, w, st' := Me(st).pc, st.nextWaiter, Apply(st, Exec);
      && GoesOn(st, st', WaitReleasing(pc.c, pc.l, w)) && ThreadsKept(st, st', {st.cur}) && st'.ready == st.ready
      && st'.semas == st.semas[Private(w) := Sema(0, [], 0, 0, 0)]
      && st'.queues == st.queues[pc.c := (if pc.c in st.queues then st.queues[pc.c] else []) + [w]]
      && st'.holders == st.holders && st'.condLocks == st.condLocks && st'.nextWaiter == w + 1
  {
    var pc := Me(st).pc;
    GoToFields(Enlist(st, pc.c), WaitReleasing(pc.c, pc.l, st.nextWaiter));
    hide GoTo;
  }

  /** It releases the lock, like lock_release(). */
  lemma CondWaitReleasing(st: State)
    requires Me(st).pc.WaitReleasing?
    ensures
      var pc := Me(st).pc;
      HolderChanges(st, Apply(st, Exec), pc.l, None, WaitReleased(pc.c, pc.l, pc.w))
  {
    hide HolderChanges;
    var pc := Me(st).pc;
    HolderEffect(st, pc.l, None, WaitReleased(pc.c, pc.l, pc.w));
    hide GoTo, SetHolder;
  }

  lemma CondWaitReleased(st: State)
    requires Inv(st) && Me(st).pc.WaitReleased?
    ensures
      var pc, st' := Me(st).pc, Apply(st, Exec);
      Upped(st, st', OfLock(pc.l)) && GoesOn(st, st', Waiting(pc.c, pc.l, pc.w)) && RestKept(st, st')
  {
    SemaThere(st);
    hide Inv, Upped, GoesOn, RestKept, Apply;
    var pc := Me(st).pc;
    ExecUps(st, OfLock(pc.l), Waiting(pc.c, pc.l, pc.w));
  }

  /** It waits for its own semaphore, and then for the lock. */
  lemma CondWait(st: State)
    requires Inv(st) && Me(st).pc.Waiting?
    ensures
      var pc, st' := Me(st).pc, Apply(st, Exec);
      && RestKept(st, st')
      && if Sem(st, Private(pc.w)).value > 0 then Downed(st, st', Private(pc.w)) && GoesOn(st, st', Acquiring(pc.l))
         else Sleeps(st, st', Private(pc.w))
  {
    SemaThere(st);
    hide Inv, Downed, Sleeps, GoesOn, RestKept, Apply;
    ExecTests(st, Private(Me(st).pc.w), Acquiring(Me(st).pc.l));
  }

  /** cond_signal() and cond_broadcast() take the front of the queue, or return if it is empty. */
  lemma CondSignal(st: State)
    requires Me(st).pc.Signalling?
    ensures
      var pc, st' := Me(st).pc, Apply(st, Exec);
      var q := if pc.c in st.queues then st.queues[pc.c] else [];
      if q == [] then OnlyMoves(st, st', User)
      else
        && GoesOn(st, st', Waking(pc.c, pc.l, q[0], pc.all)) && ThreadsKept(st, st', {st.cur})
        && st'.semas == st.semas && st'.ready == st.ready
        && st'.queues == st.queues[pc.c := q[1..]]
        && st'.holders == st.holders && st'.condLocks == st.condLocks && st'.nextWaiter == st.nextWaiter
  {
    var pc := Me(st).pc;
    var q := Queue(st, pc.c);
    GoToFields(st, User);
    if q != [] {
      GoToFields(st.(queues := st.queues[pc.c := q[1..]]), Waking(pc.c, pc.l, q[0], pc.all));
    }
    hide GoTo;
  }

  /** They up the semaphore they took; a broadcast goes on with the next. */
  lemma CondWake(st: State)
    requires Inv(st) && Me(st).pc.Waking?
    ensures
      var pc, st' := Me(st).pc, Apply(st, Exec);
      && Upped(st, st', Private(pc.w)) && RestKept(st, st')
      && GoesOn(st, st', if pc.all then Signalling(pc.c, pc.l, true) else User)
  {
    SemaThere(st);
    hide Inv, Upped, GoesOn, RestKept, Apply;
    var pc := Me(st).pc;
    ExecUps(st, Private(pc.w), if pc.all then Signalling(pc.c, pc.l, true) else User);
  }

  // ---------- Calls and scheduling ----------

  /** Calling a primitive takes the thread to its first step. */
  lemma Calls(st: State, pc: Pc)
    ensures OnlyMoves(st, Apply(st, Call(pc)), pc)
  {
    MoveEffect(st, pc);
    hide GoTo, OnlyMoves;
  }

  /** What may be called: any semaphore's operations, a lock not held, a lock held, a condition whose lock is held. */
  lemma CallsAllowed(st: State, n: nat, l: nat, c: nat, all: bool)
    requires st.cur != IDLE && Me(st).pc == User
    ensures Enabled(st, Call(Downing(n))) <==> Free(n) in st.semas
    ensures Enabled(st, Call(Upping(n))) <==> Free(n) in st.semas
    ensures Enabled(st, Call(Trying(n))) <==> Free(n) in st.semas
    ensures Enabled(st, Call(Acquiring(l))) <==> l in st.holders && st.holders[l] != Some(st.cur)
    ensures Enabled(st, Call(TryAcquiring(l))) <==> l in st.holders && st.holders[l] != Some(st.cur)
    ensures Enabled(st, Call(Releasing(l))) <==> l in st.holders && st.holders[l] == Some(st.cur)
    ensures c in st.condLocks && st.condLocks[c] == l ==>
      && (Enabled(st, Call(Enlisting(c, l))) <==> l in st.holders && st.holders[l] == Some(st.cur))
      && (Enabled(st, Call(Signalling(c, l, all))) <==> l in st.holders && st.holders[l] == Some(st.cur))
  {
  }

  lemma YieldKeeps(st: State)
    ensures
      var st' := Yielded(st);
      st' == st.(threads := st'.threads, ready := st'.ready) && ThreadsKept(st, st', {st.cur})
  {
  }

  lemma GoneKeeps(st: State)
    ensures
      var st' := Gone(st);
      st' == st.(threads := st'.threads, ready := st'.ready) && ThreadsKept(st, st', {st.cur})
  {
  }

  lemma IdleKeeps(st: State)
    requires st.cur == IDLE
    ensures
      var st' := IdleBlocked(st);
      st' == st.(threads := st'.threads, ready := st'.ready) && ThreadsKept(st, st', {st.cur})
  {
  }

  /** The timer, or thread_yield(): the running thread goes to the back of the ready list; the idle thread does not. */
  lemma Preempts(st: State)
    requires Inv(st)
    ensures
      var st' := Apply(st, Preempt);
      && Switched(st, if st.cur == IDLE then st.ready else st.ready + [st.cur], st')
      && ThreadsKept(st, st', {st.cur, st'.cur}) && st'.semas == st.semas && RestKept(st, st')
      && st.cur in st'.threads && st'.threads[st.cur].pc == Me(st).pc
      && (st'.cur != st.cur ==> st'.threads[st.cur].status == Ready)
  {
    hide Inv, Dispatch, Switched, RestKept, ThreadsKept, Executed, Give, GoTo, Spawned;
    CurThere(st);
    YieldKeeps(st);
    SwitchEffect(st, Yielded(st));
  }

  /** thread_create(): a new thread, ready at the back of the list. */
  lemma Creates(st: State)
    requires Inv(st)
    ensures
      var t, st' := st.nextTid, Apply(st, Create);
      && t !in st.threads && st'.threads == st.threads[t := Thread(Ready, User, false)]
      && st'.ready == st.ready + [t] && st'.cur == st.cur && st'.nextTid == t + 1
      && st'.semas == st.semas && st'.holders == st.holders && st'.queues == st.queues
  {
    assert st.nextTid in st.threads ==> ThreadOk(st, st.nextTid);
  }

  /** thread_exit(): the thread is gone, and another runs. */
  lemma Exits(st: State)
    requires Inv(st) && st.cur != IDLE
    ensures
      var st' := Apply(st, Exit);
      && Switched(st, st.ready, st') && st.cur !in st'.threads
      && ThreadsKept(st, st', {st.cur, st'.cur}) && st'.semas == st.semas && RestKept(st, st')
  {
    hide Inv, Dispatch, Switched, RestKept, ThreadsKept, Executed, Give, GoTo, Spawned;
    CurThere(st);
    GoneKeeps(st);
    SwitchEffect(st, Gone(st));
  }

  /** The idle thread blocks, and runs again at once if nobody else is ready. */
  lemma IdleBlocks(st: State)
    requires Inv(st) && st.cur == IDLE
    ensures
      var st' := Apply(st, IdleBlock);
      && Switched(st, st.ready, st') && IDLE in st'.threads
      && st'.threads[IDLE] == Thread(if st.ready == [] then Running else Blocked, User, false)
      && ThreadsKept(st, st', {IDLE, st'.cur}) && st'.semas == st.semas && RestKept(st, st')
  {
    hide Inv, Dispatch, Switched, RestKept, ThreadsKept, Executed, Give, GoTo, Spawned;
    CurThere(st);
    IdleKeeps(st);
    SwitchEffect(st, IdleBlocked(st));
  }

  /**
   What else may happen: the next step of a call, an exit, the idle thread's block; and interrupts,
   except at a test.
   */
  lemma StepsAllowed(st: State, n: nat)
    ensures Enabled(st, Exec) <==> Me(st).pc != User
    ensures Enabled(st, Exit) <==> st.cur != IDLE && Me(st).pc == User
    ensures Enabled(st, IdleBlock) <==> st.cur == IDLE
    ensures !Me(st).woken ==> Enabled(st, Preempt) && Enabled(st, Create)
    ensures !Me(st).woken && Free(n) in st.semas ==> Enabled(st, InterruptUp(n))
  {
  }

  /** Semaphores begin with the values they are given, and locks free. */
  lemma Starts(values: map<nat, nat>, locks: set<nat>, condLocks: map<nat, nat>, n: nat)
    ensures
      var st := Start(values, locks, condLocks);
      && (Free(n) in st.semas <==> n in values)
      && (n in values ==> st.semas[Free(n)] == Sema(values[n], [], values[n], 0, 0))
      && (OfLock(n) in st.semas <==> n in locks) && (n in locks ==> st.semas[OfLock(n)] == Sema(1, [], 1, 0, 0))
      && (n in st.holders <==> n in locks) && (n in locks ==> st.holders[n] == None)
      && st.cur != IDLE && Me(st) == Thread(Running, User, false) && st.ready == [] && st.condLocks == condLocks
  {
  }

  // ---------- Over runs ----------

  /** The action is an up of `s`: by sema_up(), a release of a lock, a signal, or an interrupt handler. */
  predicate UpsIt(st: State, a: Action, s: SemaId) {
    match a
    case InterruptUp(n) => s == Free(n)
    case Exec => (
      match Me(st).pc
      case Upping(n) => s == Free(n)
      case Released(l) => s == OfLock(l)
      case WaitReleased(_, l, _) => s == OfLock(l)
      case Waking(_, _, w, _) => s == Private(w)
      case _ => false)
    case _ => false
  }

  /** The action takes a unit of `s`: a down, a try, an acquisition or the end of a wait that finds one. */
  predicate DownsIt(st: State, a: Action, s: SemaId) {
    && a.Exec? && Sem(st, s).value > 0
    && match Me(st).pc
       case Downing(n) => s == Free(n)
       case Trying(n) => s == Free(n)
       case Acquiring(l) => s == OfLock(l)
       case TryAcquiring(l) => s == OfLock(l)
       case Waiting(_, _, w) => s == Private(w)
       case _ => false
  }

  function UpSteps(st: State, actions: seq<Action>, s: SemaId): nat {
    if actions == [] then 0
    else
      var front := actions[..|actions| - 1];
      UpSteps(st, front, s) + if UpsIt(Run(st, front), actions[|actions| - 1], s) then 1 else 0
  }

  function DownSteps(st: State, actions: seq<Action>, s: SemaId): nat {
    if actions == [] then 0
    else
      var front := actions[..|actions| - 1];
      DownSteps(st, front, s) + if DownsIt(Run(st, front), actions[|actions| - 1], s) then 1 else 0
  }

  /** `s` has been upped and downed as the flags say. */
  ghost predicate Counted(st: State, st': State, s: SemaId, up: bool, down: bool) {
    && s in st.semas && s in st'.semas
    && st'.semas[s].initial == st.semas[s].initial
    && st'.semas[s].ups == st.semas[s].ups + (if up then 1 else 0)
    && st'.semas[s].downs == st.semas[s].downs + (if down then 1 else 0)
  }

  lemma KeptCounts(st: State, st': State, s: SemaId, but: set<SemaId>)
    requires SemasKept(st, st', but) && s in st.semas && s !in but
    ensures Counted(st, st', s, false, false)
  {
  }

  lemma UppedCounts(st: State, st': State, q: SemaId, s: SemaId)
    requires Upped(st, st', q) && s in st.semas
    ensures Counted(st, st', s, s == q, false)
  {
    hide ThreadsKept;
    if s != q {
      KeptCounts(st, st', s, {q});
    }
  }

  lemma DownedCounts(st: State, st': State, q: SemaId, s: SemaId)
    requires (Downed(st, st', q) || Sleeps(st, st', q)) && s in st.semas
    ensures Counted(st, st', s, false, s == q && st.semas[q].value > 0)
  {
    hide ThreadsKept, Switched;
    if s != q {
      KeptCounts(st, st', s, {q});
    }
  }

  lemma UpCounts(st: State, s: SemaId)
    requires Inv(st) && s in st.semas
    requires Me(st).pc.Upping? || Me(st).pc.Released? || Me(st).pc.WaitReleased? || Me(st).pc.Waking?
    ensures Counted(st, Apply(st, Exec), s, UpsIt(st, Exec, s), DownsIt(st, Exec, s))
  {
    var pc, st' := Me(st).pc, Apply(st, Exec);
    hide Inv, Apply, Upped, RestKept, GoesOn, Counted;
    match pc
    case Upping(n) =>
      SemaUp(st);
      UppedCounts(st, st', Free(n), s);
    case Released(l) =>
      LockReleased(st);
      UppedCounts(st, st', OfLock(l), s);
    case WaitReleased(c, l, w) =>
      CondWaitReleased(st);
      UppedCounts(st, st', OfLock(l), s);
    case Waking(c, l, w, all) =>
      CondWake(st);
      UppedCounts(st, st', Private(w), s);
  }

  lemma TestCounts(st: State, s: SemaId)
    requires Inv(st) && s in st.semas && (Me(st).pc.Downing? || Me(st).pc.Acquiring? || Me(st).pc.Waiting?)
    ensures Counted(st, Apply(st, Exec), s, UpsIt(st, Exec, s), DownsIt(st, Exec, s))
  {
    hide Inv, Apply, Downed, Sleeps, RestKept, GoesOn, Counted;
    SemaThere(st);
    var pc, st' := Me(st).pc, Apply(st, Exec);
    match pc
    case Downing(n) =>
      SemaDown(st);
      DownedCounts(st, st', Free(n), s);
    case Acquiring(l) =>
      LockAcquire(st);
      DownedCounts(st, st', OfLock(l), s);
    case Waiting(c, l, w) =>
      CondWait(st);
      DownedCounts(st, st', Private(w), s);
  }

  lemma TryCounts(st: State, s: SemaId)
    requires Inv(st) && s in st.semas && (Me(st).pc.Trying? || Me(st).pc.TryAcquiring?)
    ensures Counted(st, Apply(st, Exec), s, UpsIt(st, Exec, s), DownsIt(st, Exec, s))
  {
    hide Inv, Apply, Downed, OnlyMoves, RestKept, GoesOn, Counted;
    SemaThere(st);
    var pc, st' := Me(st).pc, Apply(st, Exec);
    match pc
    case Trying(n) =>
      SemaTryDown(st);
      TriedCounts(st, st', Free(n), s);
    case TryAcquiring(l) =>
      LockTryAcquire(st);
      TriedCounts(st, st', OfLock(l), s);
  }

  lemma OtherCounts(st: State, s: SemaId)
    requires Inv(st) && s in st.semas
    requires
      var pc := Me(st).pc;
      pc.Acquired? || pc.Releasing? || pc.Enlisting? || pc.WaitReleasing? || pc.Signalling?
    ensures Counted(st, Apply(st, Exec), s, UpsIt(st, Exec, s), DownsIt(st, Exec, s))
  {
    var pc, st' := Me(st).pc, Apply(st, Exec);
    hide Inv, Apply, ThreadsKept, GoesOn, RestKept, Counted;
    match pc
    case Acquired(l) =>
      LockAcquired(st);
      SameCounts(st, st', s);
    case Releasing(l) =>
      LockReleasing(st);
      SameCounts(st, st', s);
    case Enlisting(c, l) =>
      CondJoin(st);
      SynchTheorems.NotNew(st, s);
      JoinCounts(st, st', s);
    case WaitReleasing(c, l, w) =>
      CondWaitReleasing(st);
      SameCounts(st, st', s);
    case Signalling(c, l, all) =>
      CondSignal(st);
      SameCounts(st, st', s);
  }

  lemma ExecCounts(st: State, s: SemaId)
    requires Inv(st) && s in st.semas && Me(st).pc != User
    ensures Counted(st, Apply(st, Exec), s, UpsIt(st, Exec, s), DownsIt(st, Exec, s))
  {
    hide Inv, Apply, Counted, UpsIt, DownsIt;
    var pc := Me(st).pc;
    if pc.Upping? || pc.Released? || pc.WaitReleased? || pc.Waking? {
      UpCounts(st, s);
    } else if pc.Downing? || pc.Acquiring? || pc.Waiting? {
      TestCounts(st, s);
    } else if pc.Trying? || pc.TryAcquiring? {
      TryCounts(st, s);
    } else {
      OtherCounts(st, s);
    }
  }

  lemma SameCounts(st: State, st': State, s: SemaId)
    requires st'.semas == st.semas && s in st.semas
    ensures Counted(st, st', s, false, false)
  {
  }

  lemma JoinCounts(st: State, st': State, s: SemaId)
    requires st'.semas == st.semas[Private(st.nextWaiter) := Sema(0, [], 0, 0, 0)]
    requires s in st.semas && s != Private(st.nextWaiter)
    ensures Counted(st, st', s, false, false)
  {
  }

  lemma TriedCounts(st: State, st': State, q: SemaId, s: SemaId)
    requires if Sem(st, q).value > 0 then Downed(st, st', q) else OnlyMoves(st, st', User)
    requires s in st.semas && q in st.semas
    ensures Counted(st, st', s, false, s == q && st.semas[q].value > 0)
  {
    hide ThreadsKept, Downed, SemasKept, GoesOn, RestKept;
    if Sem(st, q).value > 0 {
      DownedCounts(st, st', q, s);
    }
  }

  lemma StepCounts(st: State, a: Action, s: SemaId)
    requires Inv(st) && Enabled(st, a) && s in st.semas
    ensures Counted(st, Apply(st, a), s, UpsIt(st, a, s), DownsIt(st, a, s))
  {
    var st' := Apply(st, a);
    hide Inv, Apply, Upped, Switched, ThreadsKept, Counted;
    match a
    case Exec => ExecCounts(st, s);
    case InterruptUp(n) =>
      SemaUpInInterrupt(st, n);
      UppedCounts(st, st', Free(n), s);
    case Call(pc) =>
      Calls(st, pc);
      SameCounts(st, st', s);
    case Preempt =>
      Preempts(st);
      SameCounts(st, st', s);
    case IdleBlock =>
      IdleBlocks(st);
      SameCounts(st, st', s);
    case Create =>
      Creates(st);
      SameCounts(st, st', s);
    case Exit =>
      Exits(st);
      SameCounts(st, st', s);
  }

  /**
   Over every run, a semaphore's ups are the calls of sema_up() on it that were carried
   out, in threads and in interrupt handlers, and its downs are the tests that found a unit.
   */
  lemma {:induction false} RunCounts(st: State, actions: seq<Action>, s: SemaId)
    requires Inv(st) && Possible(st, actions) && s in st.semas
    ensures
      var st' := Run(st, actions);
      && s in st'.semas && st'.semas[s].initial == st.semas[s].initial
      && st'.semas[s].ups == st.semas[s].ups + UpSteps(st, actions, s)
      && st'.semas[s].downs == st.semas[s].downs + DownSteps(st, actions, s)
      && st'.semas[s].value == st.semas[s].value + UpSteps(st, actions, s) - DownSteps(st, actions, s)
  {
    RunKept(st, actions);
    SynchTheorems.NoLostWakeup(st, s);
    hide Inv, Enabled, Apply, UpsIt, DownsIt;
    if actions != [] {
      var front := actions[..|actions| - 1];
      RunCounts(st, front, s);
      RunKept(st, front);
      StepCounts(Run(st, front), actions[|actions| - 1], s);
    }
    ValueIs(Run(st, actions), s);
  }

  lemma ValueIs(st: State, s: SemaId)
    requires Inv(st) && s in st.semas
    ensures st.semas[s].value == st.semas[s].initial + st.semas[s].ups - st.semas[s].downs
  {
    SynchTheorems.NoLostWakeup(st, s);
  }

  /** lock_acquire() of a free lock, if nothing interferes: the caller holds it. */
  lemma AcquireFree(st: State, l: nat)
    requires Inv(st) && Enabled(st, Call(Acquiring(l))) && Sem(st, OfLock(l)).value > 0
    ensures
      var actions := [Call(Acquiring(l)), Exec, Exec];
      var st' := Run(st, actions);
      && Possible(st, actions) && st'.cur == st.cur && Me(st').pc == User
      && l in st'.holders && st'.holders[l] == Some(st.cur) && Sem(st', OfLock(l)).value == Sem(st, OfLock(l)).value - 1
  {
    var st1 := Apply(st, Call(Acquiring(l)));
    var st2 := Apply(st1, Exec);
    ThreeSteps(st, Call(Acquiring(l)), Exec, Exec);
    Calls(st, Acquiring(l));
    StepKept(st, Call(Acquiring(l)));
    hide Inv, Apply, Run, Possible, ThreadsKept, SemasKept;
    LockAcquire(st1);
    LockAcquired(st2);
  }

  /** lock_release(), if nothing interferes: nobody holds the lock, and the longest-waiting thread is ready. */
  lemma ReleaseHeld(st: State, l: nat)
    requires Inv(st) && Enabled(st, Call(Releasing(l))) && OfLock(l) in st.semas
    ensures
      var actions := [Call(Releasing(l)), Exec, Exec];
      var st', x := Run(st, actions), st.semas[OfLock(l)];
      && Possible(st, actions) && st'.cur == st.cur && Me(st').pc == User
      && l in st'.holders && st'.holders[l] == None && Sem(st', OfLock(l)).value == x.value + 1
      && st'.ready == st.ready + if x.waiters == [] then [] else [x.waiters[0]]
  {
    hide Inv, Apply, Run, Possible, ThreadsKept, SemasKept, CallOk;
    var st1 := Apply(st, Call(Releasing(l)));
    var st2 := Apply(st1, Exec);
    ThreeSteps(st, Call(Releasing(l)), Exec, Exec);
    Calls(st, Releasing(l));
    StepKept(st, Call(Releasing(l)));
    LockReleasing(st1);
    StepKept(st1, Exec);
    assert st2.semas == st.semas && st2.ready == st.ready;
    LockReleased(st2);
  }

  lemma ThreeSteps(st: State, a: Action, b: Action, c: Action)
    ensures
      var st1 := Apply(st, a);
      var st2 := Apply(st1, b);
      && Run(st, [a, b, c]) == Apply(st2, c)
      && (Possible(st, [a, b, c]) <==> Enabled(st, a) && Enabled(st1, b) && Enabled(st2, c))
  {
    hide Apply, Enabled;
    var s3, s2, s1 := [a, b, c], [a, b], [a];
    assert s3[..2] == s2 && s2[..1] == s1 && s1[..0] == [];
    assert Run(st, s1) == Apply(st, a);
    assert Run(st, s2) == Apply(Apply(st, a), b);
    assert Possible(st, []) && (Possible(st, s1) <==> Enabled(Run(st, []), a));
    assert Possible(st, s2) <==> Possible(st, s1) && Enabled(Run(st, s1), b);
  }
}
