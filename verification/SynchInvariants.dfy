/**
 What every step of the scheduler and the synchronization primitives keeps.
 */
module SynchInvariants {

  import opened Options
  import opened Synch
  import opened Sequences

  // ---------- Scheduling ----------

  /** What holds of the state as a whole. */
  ghost predicate ListsOk(st: State) {
    && IDLE in st.threads
    && NoDup(st.ready)
    && (forall t :: t in st.ready ==> t in st.threads)
  }

  /** A thread's status agrees with the ready list, and with the waiters of the semaphore it waits on. */
  ghost predicate ThreadOk(st: State, t: Tid)
    requires t in st.threads
  {
    var me := st.threads[t];
    && t < st.nextTid
    && (t in st.ready <==> t != IDLE && me.status == Ready)
    && (t != IDLE && me.status == Blocked ==>
          WaitsOn(me.pc).Some? && t in Sem(st, WaitsOn(me.pc).value).waiters)
    && (me.woken ==> me.status != Blocked && WaitsOn(me.pc).Some?)
    && (t == IDLE ==> me.pc == User)
  }

  ghost predicate ListedOk(st: State, s: SemaId, t: Tid) {
    t in st.threads && t != IDLE && st.threads[t].status == Blocked && WaitsOn(st.threads[t].pc) == Some(s)
  }

  /** The waiters of a semaphore are blocked on it, each listed once. */
  ghost predicate WaitersOk(st: State, s: SemaId) {
    NoDup(Sem(st, s).waiters) && forall t :: t in Sem(st, s).waiters ==> ListedOk(st, s, t)
  }

  /** `running` says who runs: one thread, or nobody between two threads. */
  ghost predicate Structure(st: State, running: Option<Tid>) {
    && ListsOk(st)
    && (running.Some? ==> st.cur == running.value && st.cur in st.threads)
    && (forall t :: t in st.threads ==> ThreadOk(st, t))
    && (forall t :: t in st.threads ==> (st.threads[t].status == Running <==> running == Some(t)))
    && (forall s :: s in st.semas ==> WaitersOk(st, s))
  }

  lemma DispatchStructure(st: State)
    requires Structure(st, None)
    ensures var st' := Dispatch(st); Structure(st', Some(st'.cur))
  {
    var st' := Dispatch(st);
    if st.ready != [] {
      NoDupTail(st.ready);
    }
    forall t | t in st'.threads
      ensures ThreadOk(st', t)
    {
      assert ThreadOk(st, t);
    }
    forall s | s in st'.semas
      ensures WaitersOk(st', s)
    {
      assert WaitersOk(st, s);
    }
  }

  lemma GoToStructure(st: State, pc: Pc)
    requires Structure(st, Some(st.cur)) && st.cur != IDLE
    ensures Structure(GoTo(st, pc), Some(st.cur))
  {
    var st' := GoTo(st, pc);
    forall t | t in st'.threads
      ensures ThreadOk(st', t)
    {
      assert ThreadOk(st, t);
    }
    forall s | s in st'.semas
      ensures WaitersOk(st', s)
    {
      assert WaitersOk(st, s);
    }
  }

  /** Changing a semaphore but not its waiters, or anything but threads and semaphores, is no matter. */
  lemma SameStructure(st: State, st': State)
    requires Structure(st, Some(st.cur))
    requires st'.threads == st.threads && st'.cur == st.cur && st'.ready == st.ready && st'.nextTid == st.nextTid
    requires forall s :: Sem(st', s).waiters == Sem(st, s).waiters
    ensures Structure(st', Some(st.cur))
  {
    forall t | t in st'.threads
      ensures ThreadOk(st', t)
    {
      assert ThreadOk(st, t);
    }
    forall s | s in st'.semas
      ensures WaitersOk(st', s)
    {
      assert s in st.semas ==> WaitersOk(st, s);
    }
  }

  /** The thread at the front of a waiters list is blocked there, as thread_unblock() asserts. */
  lemma FrontWaiter(st: State, s: SemaId)
    requires Structure(st, Some(st.cur)) && s in st.semas && st.semas[s].waiters != []
    ensures
      var t := st.semas[s].waiters[0];
      && ListedOk(st, s, t) && !st.threads[t].woken
      && t != st.cur && t !in st.ready
  {
    var t := st.semas[s].waiters[0];
    assert WaitersOk(st, s) && t in Sem(st, s).waiters;
    assert ThreadOk(st, t);
  }

  /** Upping a semaphore: the front waiter, if any, becomes ready. */
  lemma GiveStructure(st: State, s: SemaId)
    requires Structure(st, Some(st.cur)) && s in st.semas
    ensures Structure(Give(st, s), Some(st.cur))
  {
    var st' := Give(st, s);
    if st.semas[s].waiters == [] {
      SameStructure(st, st');
    } else {
      var t := st.semas[s].waiters[0];
      FrontWaiter(st, s);
      NoDupAppend(st.ready, t);
      hide NoDup, ThreadOk, WaitersOk;
      GiveLists(st, s);
      hide Give;
      forall u | u in st'.threads
        ensures ThreadOk(st', u)
      {
        GiveThread(st, s, u);
      }
      forall q | q in st'.semas
        ensures WaitersOk(st', q)
      {
        GiveWaiters(st, s, q);
      }
    }
  }

  lemma GiveLists(st: State, s: SemaId)
    requires Structure(st, Some(st.cur)) && s in st.semas && st.semas[s].waiters != []
    ensures
      var st' := Give(st, s);
      && ListsOk(st') && st'.cur == st.cur && st'.threads.Keys == st.threads.Keys
      && forall u :: u in st'.threads ==> (st'.threads[u].status == Running <==> u == st.cur)
  {
    FrontWaiter(st, s);
    NoDupAppend(st.ready, st.semas[s].waiters[0]);
    hide NoDup, ThreadOk, WaitersOk;
  }

  lemma GiveWaiters(st: State, s: SemaId, q: SemaId)
    requires Structure(st, Some(st.cur)) && s in st.semas && st.semas[s].waiters != [] && q in Give(st, s).semas
    ensures WaitersOk(Give(st, s), q)
  {
    FrontWaiter(st, s);
    NoDupTail(st.semas[s].waiters);
    assert WaitersOk(st, q);
    hide Structure, NoDup;
  }

  lemma GiveThread(st: State, s: SemaId, u: Tid)
    requires Structure(st, Some(st.cur)) && s in st.semas && st.semas[s].waiters != [] && u in Give(st, s).threads
    ensures ThreadOk(Give(st, s), u)
  {
    var t := st.semas[s].waiters[0];
    FrontWaiter(st, s);
    NoDupTail(st.semas[s].waiters);
    assert ThreadOk(st, u);
    hide Structure, NoDup;
  }

  lemma AsleepStructure(st: State, s: SemaId)
    requires Structure(st, Some(st.cur)) && s in st.semas && st.cur != IDLE && WaitsOn(Me(st).pc) == Some(s)
    ensures Structure(Asleep(st, s), None)
  {
    var st' := Asleep(st, s);
    assert WaitersOk(st, s);
    assert st.cur !in st.semas[s].waiters;
    NoDupAppend(st.semas[s].waiters, st.cur);
    forall t | t in st'.threads
      ensures ThreadOk(st', t)
    {
      assert ThreadOk(st, t);
    }
    forall q | q in st'.semas
      ensures WaitersOk(st', q)
    {
      assert WaitersOk(st, q);
    }
  }

  lemma YieldedStructure(st: State)
    requires Structure(st, Some(st.cur))
    ensures Structure(Yielded(st), None)
  {
    var st' := Yielded(st);
    assert ThreadOk(st, st.cur);
    if st.cur != IDLE {
      NoDupAppend(st.ready, st.cur);
    }
    forall t | t in st'.threads
      ensures ThreadOk(st', t)
    {
      assert ThreadOk(st, t);
    }
    forall s | s in st'.semas
      ensures WaitersOk(st', s)
    {
      assert WaitersOk(st, s);
    }
  }

  lemma IdleBlockedStructure(st: State)
    requires Structure(st, Some(st.cur)) && st.cur == IDLE
    ensures Structure(IdleBlocked(st), None)
  {
    var st' := IdleBlocked(st);
    forall t | t in st'.threads
      ensures ThreadOk(st', t)
    {
      assert ThreadOk(st, t);
    }
    forall s | s in st'.semas
      ensures WaitersOk(st', s)
    {
      assert WaitersOk(st, s);
    }
  }

  lemma SpawnedStructure(st: State)
    requires Structure(st, Some(st.cur))
    ensures Structure(Spawned(st), Some(st.cur))
  {
    var st' := Spawned(st);
    assert st.nextTid !in st.threads by {
      assert st.nextTid in st.threads ==> ThreadOk(st, st.nextTid);
    }
    assert ThreadOk(st, IDLE);
    NoDupAppend(st.ready, st.nextTid);
    forall t | t in st'.threads
      ensures ThreadOk(st', t)
    {
      assert t in st.threads ==> ThreadOk(st, t);
    }
    forall s | s in st'.semas
      ensures WaitersOk(st', s)
    {
      assert WaitersOk(st, s);
    }
  }

  lemma GoneStructure(st: State)
    requires Structure(st, Some(st.cur)) && st.cur != IDLE
    ensures Structure(Gone(st), None)
  {
    var st' := Gone(st);
    assert ThreadOk(st, st.cur);
    forall t | t in st'.threads
      ensures ThreadOk(st', t)
    {
      assert ThreadOk(st, t);
    }
    forall s | s in st'.semas
      ensures WaitersOk(st', s)
    {
      assert WaitersOk(st, s);
    }
  }

  // ---------- Semaphores ----------

  /** Threads unblocked from `s` that have not tested its value again yet. */
  ghost function Woken(st: State, s: SemaId): set<Tid> {
    set t | t in st.threads && st.threads[t].woken && WaitsOn(st.threads[t].pc) == Some(s)
  }

  /**
   The value is what the history says, and no wakeup is lost: while threads wait, for
   each unit of value some thread is already on its way to take it.
   */
  ghost predicate SemaOk(st: State, s: SemaId) {
    var x := Sem(st, s);
    && x.value + x.downs == x.initial + x.ups
    && (x.waiters != [] ==> x.value <= |Woken(st, s)|)
  }

  ghost predicate SemasOk(st: State) {
    forall s :: s in st.semas ==> SemaOk(st, s)
  }

  /** The running thread, if woken, waits on one semaphore, and GoTo takes it off that count. */
  lemma WokenGoTo(st: State, pc: Pc, s: SemaId)
    requires st.cur in st.threads
    ensures Woken(GoTo(st, pc), s) == Woken(st, s) - {st.cur}
    ensures |Woken(GoTo(st, pc), s)| >= |Woken(st, s)| - 1
    ensures WaitsOn(Me(st).pc) != Some(s) || !Me(st).woken ==> Woken(GoTo(st, pc), s) == Woken(st, s)
  {
  }

  lemma WokenDispatch(st: State, s: SemaId)
    ensures Woken(Dispatch(st), s) == Woken(st, s)
  {
  }

  lemma WokenAsleep(st: State, q: SemaId, s: SemaId)
    requires st.cur in st.threads
    ensures Woken(Asleep(st, q), s) == Woken(st, s) - {st.cur}
  {
  }

  lemma WokenGive(st: State, q: SemaId, s: SemaId)
    requires Structure(st, Some(st.cur)) && q in st.semas
    ensures s != q ==> Woken(Give(st, q), s) == Woken(st, s)
    ensures Sem(st, q).waiters == [] ==> Woken(Give(st, q), s) == Woken(st, s)
    ensures Sem(st, q).waiters != [] ==> |Woken(Give(st, q), q)| == |Woken(st, q)| + 1
  {
    if Sem(st, q).waiters != [] {
      FrontWaiter(st, q);
      hide Structure, NoDup;
      var t := Sem(st, q).waiters[0];
      WokenFront(st, q, s, t);
      WokenFront(st, q, q, t);
      hide Give, Woken;
    }
  }

  /** The front waiter joins the threads on their way to `q`, and no others. */
  lemma WokenFront(st: State, q: SemaId, s: SemaId, t: Tid)
    requires Sem(st, q).waiters != [] && t == Sem(st, q).waiters[0] && ListedOk(st, q, t) && !st.threads[t].woken
    ensures Woken(Give(st, q), s) == (if s == q then Woken(st, s) + {t} else Woken(st, s))
    ensures t !in Woken(st, q)
  {
  }

  /** The test succeeds: one unit is taken by the running thread, woken or not. */
  lemma TakenSemas(st: State, s: SemaId, pc: Pc)
    requires Structure(st, Some(st.cur)) && SemasOk(st) && s in st.semas && st.semas[s].value > 0
    requires WaitsOn(Me(st).pc) == Some(s) || !Me(st).woken
    ensures SemasOk(GoTo(Enter(Take(st, s), s), pc))
  {
    var st' := GoTo(Enter(Take(st, s), s), pc);
    assert st.cur in st.threads;
    assert st'.semas.Keys == st.semas.Keys;
    hide Structure, SemaOk, Take, Enter, GoTo;
    forall q | q in st'.semas
      ensures SemaOk(st', q)
    {
      TakenSema(st, s, pc, q);
    }
  }

  lemma TakenSema(st: State, s: SemaId, pc: Pc, q: SemaId)
    requires st.cur in st.threads && SemasOk(st) && s in st.semas && st.semas[s].value > 0
    requires WaitsOn(Me(st).pc) == Some(s) || !Me(st).woken
    requires q in st.semas
    ensures SemaOk(GoTo(Enter(Take(st, s), s), pc), q)
  {
    var st1 := Enter(Take(st, s), s);
    assert SemaOk(st, q);
    TakeCount(st, s, pc, q);
    hide Take, Enter, GoTo, SemasOk;
    WokenGoTo(st1, pc, q);
    hide Woken;
  }

  lemma TakeCount(st: State, s: SemaId, pc: Pc, q: SemaId)
    ensures
      var st1 := Enter(Take(st, s), s);
      var x := Sem(st, q);
      && st1.cur == st.cur && st1.threads == st.threads && Woken(st1, q) == Woken(st, q)
      && Sem(GoTo(st1, pc), q) ==
         if q == s then x.(value := if x.value > 0 then x.value - 1 else 0, downs := x.downs + 1) else x
  {
    hide GoTo;
    GoToLeavesSemas(Enter(Take(st, s), s), pc);
  }

  lemma GoToLeavesSemas(st: State, pc: Pc)
    ensures GoTo(st, pc).semas == st.semas
  {
  }

  /** The test fails: the value is 0 and the running thread joins the waiters. */
  lemma AsleepSemas(st: State, s: SemaId)
    requires st.cur in st.threads && SemasOk(st) && s in st.semas && st.semas[s].value == 0
    requires WaitsOn(Me(st).pc) == Some(s)
    ensures SemasOk(Dispatch(Asleep(st, s)))
  {
    var st' := Dispatch(Asleep(st, s));
    assert st'.semas == st.semas[s := st.semas[s].(waiters := st.semas[s].waiters + [st.cur])];
    forall q | q in st'.semas
      ensures SemaOk(st', q)
    {
      AsleepSema(st, s, q);
    }
  }

  lemma AsleepSema(st: State, s: SemaId, q: SemaId)
    requires st.cur in st.threads && SemasOk(st) && s in st.semas && st.semas[s].value == 0
    requires WaitsOn(Me(st).pc) == Some(s) && q in st.semas
    ensures SemaOk(Dispatch(Asleep(st, s)), q)
  {
    var st1 := Asleep(st, s);
    assert SemaOk(st, q);
    WokenAsleep(st, s, q);
    WokenDispatch(st1, q);
    assert q != s ==> st.cur !in Woken(st, q);
    hide Woken, Asleep, Dispatch, SemasOk;
    AsleepCount(st, s, q);
  }

  /** Going to sleep on `s` adds the thread to the waiters and changes no count. */
  lemma AsleepCount(st: State, s: SemaId, q: SemaId)
    ensures Sem(Dispatch(Asleep(st, s)), q) ==
      if q == s then Sem(st, q).(waiters := Sem(st, q).waiters + [st.cur]) else Sem(st, q)
    ensures q in st.semas ==> q in Dispatch(Asleep(st, s)).semas
  {
    DispatchLeavesSemas(Asleep(st, s));
    hide Dispatch;
  }

  lemma DispatchLeavesSemas(st: State)
    ensures Dispatch(st).semas == st.semas
  {
  }

  /** Upping keeps pace: a unit of value for every thread sent to fetch one. */
  lemma GivenSemas(st: State, s: SemaId)
    requires Structure(st, Some(st.cur)) && SemasOk(st) && s in st.semas
    ensures SemasOk(Give(st, s))
  {
    hide Structure, SemaOk, NoDup;
    var st' := Give(st, s);
    GiveKeys(st, s);
    hide Give;
    forall q | q in st'.semas
      ensures SemaOk(st', q)
    {
      GivenSema(st, s, q);
    }
  }

  lemma GiveKeys(st: State, s: SemaId)
    requires s in st.semas
    ensures Give(st, s).semas.Keys == st.semas.Keys
  {
  }

  lemma GivenSema(st: State, s: SemaId, q: SemaId)
    requires Structure(st, Some(st.cur)) && SemasOk(st) && s in st.semas && q in st.semas
    ensures SemaOk(Give(st, s), q)
  {
    assert SemaOk(st, q);
    WokenGive(st, s, q);
    var x, x' := Sem(st, q), Sem(Give(st, s), q);
    assert q != s ==> x' == x;
    assert q == s ==> x'.value == x.value + 1 && x'.ups == x.ups + 1 && x'.downs == x.downs && x'.initial == x.initial;
    hide Structure, Woken, Give;
  }

  /** Steps that neither change a value nor test one keep the counts. */
  lemma SameSemas(st: State, st': State)
    requires SemasOk(st)
    requires forall s :: s in st'.semas ==>
      s in st.semas && st'.semas[s] == st.semas[s] && Woken(st', s) == Woken(st, s)
    ensures SemasOk(st')
  {
    forall s | s in st'.semas
      ensures SemaOk(st', s)
    {
      assert SemaOk(st, s);
    }
  }
}
