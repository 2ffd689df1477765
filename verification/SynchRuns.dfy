/**
 Every run of the kernel's threads: the invariants hold in every reachable state.
 */
module SynchRuns {

  import opened Options
  import opened Synch
  import opened SynchInvariants
  import opened SynchLocks

  ghost predicate Inv(st: State) {
    Structure(st, Some(st.cur)) && SemasOk(st) && Core(SyncOf(st))
  }

  // ---------- How locks and conditions see the pieces of a step ----------

  lemma SyncGoTo(st: State, pc: Pc)
    requires st.cur in st.threads
    ensures SyncOf(GoTo(st, pc)) == MoveTo(SyncOf(st), st.cur, pc)
  {
    assert SyncOf(GoTo(st, pc)).pcs == MoveTo(SyncOf(st), st.cur, pc).pcs;
  }

  lemma SyncDispatch(st: State)
    ensures SyncOf(Dispatch(st)) == SyncOf(st)
  {
    assert SyncOf(Dispatch(st)).pcs == SyncOf(st).pcs;
  }

  lemma SyncSetSema(st: State, s: SemaId, x: Sema)
    ensures SyncOf(SetSema(st, s, x)) == SyncOf(st).(counts := SyncOf(st).counts[s := CountsOf(x)])
  {
    assert SyncOf(SetSema(st, s, x)).counts == SyncOf(st).counts[s := CountsOf(x)];
  }

  /** Waking or blocking a thread does not move it. */
  lemma SyncThread(st: State, t: Tid, thread: Thread)
    requires t in st.threads && thread.pc == st.threads[t].pc
    ensures SyncOf(st.(threads := st.threads[t := thread])) == SyncOf(st)
  {
    assert SyncOf(st.(threads := st.threads[t := thread])).pcs == SyncOf(st).pcs;
  }

  lemma SameCounts(y: Sync, s: SemaId)
    requires s in y.counts
    ensures y.(counts := y.counts[s := y.counts[s]]) == y
  {
    assert y.counts[s := y.counts[s]] == y.counts;
  }

  lemma SyncAsleep(st: State, s: SemaId)
    requires st.cur in st.threads && s in st.semas
    ensures SyncOf(Asleep(st, s)) == SyncOf(st)
  {
    hide SyncOf;
    var x := Sem(st, s);
    var x' := x.(waiters := x.waiters + [st.cur]);
    SyncSetSema(st, s, x');
    SyncCounts(st, s);
    SameCounts(SyncOf(st), s);
    SyncThread(SetSema(st, s, x'), st.cur, Thread(Blocked, Me(st).pc, false));
  }

  lemma SyncCounts(st: State, s: SemaId)
    ensures Cnt(SyncOf(st), s) == CountsOf(Sem(st, s))
    ensures s in SyncOf(st).counts <==> s in st.semas
  {
  }

  lemma SyncYielded(st: State)
    requires st.cur in st.threads
    ensures SyncOf(Yielded(st)) == SyncOf(st)
  {
    assert SyncOf(Yielded(st)).pcs == SyncOf(st).pcs;
  }

  lemma SyncTake(st: State, s: SemaId)
    requires s in st.semas
    ensures SyncOf(Take(st, s)) == Downed(SyncOf(st), s)
  {
    hide SyncOf;
    var x := Sem(st, s);
    SyncSetSema(st, s, x.(value := if x.value > 0 then x.value - 1 else 0, downs := x.downs + 1));
    SyncCounts(st, s);
  }

  lemma SyncUnblock(st: State, t: Tid)
    ensures SyncOf(Unblock(st, t)) == SyncOf(st)
  {
    if t in st.threads {
      SyncThread(st, t, st.threads[t].(status := Ready, woken := true));
    }
  }

  lemma SyncGive(st: State, s: SemaId)
    requires s in st.semas
    ensures SyncOf(Give(st, s)) == Upped(SyncOf(st), s)
  {
    hide SyncOf, Unblock;
    var x := Sem(st, s);
    var st1 := if x.waiters == [] then st else Unblock(st, x.waiters[0]);
    var rest := if x.waiters == [] then [] else x.waiters[1..];
    if x.waiters != [] {
      SyncUnblock(st, x.waiters[0]);
    }
    SyncSetSema(st1, s, x.(value := x.value + 1, waiters := rest, ups := x.ups + 1));
    SyncCounts(st, s);
  }

  lemma SyncEnlist(st: State, c: nat, l: nat)
    requires st.cur in st.threads
    ensures SyncOf(GoTo(Enlist(st, c), WaitReleasing(c, l, st.nextWaiter))) == Enlisted(SyncOf(st), st.cur, c, l)
  {
    SyncGoTo(Enlist(st, c), WaitReleasing(c, l, st.nextWaiter));
    EnlistCounts(st, c);
    hide GoTo;
  }

  lemma EnlistCounts(st: State, c: nat)
    ensures SyncOf(Enlist(st, c)).counts == SyncOf(st).counts[Private(st.nextWaiter) := Counts(0, 0, 0, 0)]
  {
  }

  // ---------- One step ----------

  /** A thread in the middle of a primitive is not the idle thread, and the semaphore it is at exists. */
  lemma AtSemaphore(st: State)
    requires Inv(st) && Me(st).pc != User
    ensures st.cur in st.threads && st.cur != IDLE
    ensures WaitsOn(Me(st).pc).Some? ==> WaitsOn(Me(st).pc).value in st.semas
    ensures UpsNow(Me(st).pc).Some? ==> UpsNow(Me(st).pc).value in st.semas
    ensures Me(st).pc.Trying? ==> Free(Me(st).pc.n) in st.semas
    ensures Me(st).pc.TryAcquiring? ==> OfLock(Me(st).pc.l) in st.semas
    ensures !WaitsOn(Me(st).pc).Some? ==> !Me(st).woken
  {
    assert ThreadOk(st, st.cur);
    SemaThere(SyncOf(st), st.cur);
    hide Structure, Core, ThreadOk;
  }

  lemma SyncEnter(st: State, l: nat)
    requires st.cur in st.threads && OfLock(l) in st.semas && l in st.inside
    ensures SyncOf(GoTo(Enter(Take(st, OfLock(l)), OfLock(l)), Acquired(l))) == Entered(SyncOf(st), st.cur, l)
  {
    var st1 := Take(st, OfLock(l));
    SyncTake(st, OfLock(l));
    SyncGoTo(Enter(st1, OfLock(l)), Acquired(l));
    hide Take, Downed;
  }

  lemma SyncLeave(st: State, l: nat, pc: Pc)
    requires st.cur in st.threads && OfLock(l) in st.semas && l in st.inside
    ensures SyncOf(GoTo(Leave(Give(st, OfLock(l)), OfLock(l)), pc)) == Left(SyncOf(st), st.cur, l, pc)
  {
    var st1 := Give(st, OfLock(l));
    SyncGive(st, OfLock(l));
    GiveCur(st, OfLock(l));
    SyncGoTo(Leave(st1, OfLock(l)), pc);
    hide Give, Upped;
  }

  lemma GiveCur(st: State, s: SemaId)
    ensures Give(st, s).cur == st.cur && Give(st, s).inside == st.inside
    ensures st.cur in st.threads ==> st.cur in Give(st, s).threads
  {
  }

  /** The test of a semaphore succeeds. */
  lemma DownCore(st: State, s: SemaId)
    requires Inv(st) && WaitsOn(Me(st).pc) == Some(s) && Sem(st, s).value > 0
    ensures Core(SyncOf(GoTo(Enter(Take(st, s), s), AfterDown(Me(st).pc))))
  {
    hide Inv, Core, SyncOf, GoTo, Enter, Take;
    AtSemaphore(st);
    match Me(st).pc
    case Downing(n) => DownFree(st, n, User);
    case Acquiring(l) => DownLock(st, l);
    case Waiting(c, l, w) => DownPrivate(st);
  }

  lemma MyPc(st: State)
    requires st.cur in st.threads
    ensures st.cur in SyncOf(st).pcs && SyncOf(st).pcs[st.cur] == Me(st).pc
    ensures SyncOf(st).inside == st.inside && forall c :: QueueOf(SyncOf(st), c) == Queue(st, c)
  {
  }

  lemma DownFree(st: State, n: nat, pc: Pc)
    requires Inv(st) && (Me(st).pc == Downing(n) || Me(st).pc == Trying(n)) && pc == User
    ensures Core(SyncOf(GoTo(Enter(Take(st, Free(n)), Free(n)), pc)))
  {
    hide Structure, SemasOk, Core, SyncOf;
    AtSemaphore(st);
    MyPc(st);
    var y, s := SyncOf(st), Free(n);
    SyncCounts(st, s);
    SyncTake(st, s);
    SyncGoTo(Take(st, s), User);
    FreeChanged(y, n, Downed(y, s).counts[s]);
    PlainUser(Downed(y, s), st.cur);
  }

  lemma DownLock(st: State, l: nat)
    requires Inv(st) && (Me(st).pc == Acquiring(l) || Me(st).pc == TryAcquiring(l)) && Sem(st, OfLock(l)).value > 0
    ensures Core(SyncOf(GoTo(Enter(Take(st, OfLock(l)), OfLock(l)), Acquired(l))))
  {
    hide Structure, SemasOk, Core, SyncOf, GoTo, Enter, Take;
    AtSemaphore(st);
    MyPc(st);
    SyncCounts(st, OfLock(l));
    LockThere(SyncOf(st), st.cur, l);
    SyncEnter(st, l);
    EnteredCore(SyncOf(st), st.cur, l);
  }

  lemma DownPrivate(st: State)
    requires Inv(st) && Me(st).pc.Waiting?
    ensures var s := Private(Me(st).pc.w); Core(SyncOf(GoTo(Enter(Take(st, s), s), Acquiring(Me(st).pc.l))))
  {
    hide Structure, SemasOk, Core, SyncOf;
    AtSemaphore(st);
    MyPc(st);
    var s := Private(Me(st).pc.w);
    SyncTake(st, s);
    SyncGoTo(Take(st, s), Acquiring(Me(st).pc.l));
    CameThroughCore(SyncOf(st), st.cur);
  }

  /** A semaphore is upped. */
  lemma UpCore(st: State, s: SemaId)
    requires Inv(st) && UpsNow(Me(st).pc) == Some(s)
    ensures Core(SyncOf(GoTo(Leave(Give(st, s), s), AfterUp(Me(st).pc))))
  {
    AtSemaphore(st);
    hide Inv, Core, SyncOf, GoTo, Leave, Give;
    match Me(st).pc
    case Upping(n) => UpFree(st, n);
    case Released(l) => UpLock(st, l);
    case WaitReleased(c, l, w) => UpLock(st, l);
    case Waking(c, l, w, all) => UpPrivate(st);
  }

  lemma GivenFree(st: State, n: nat)
    requires Core(SyncOf(st)) && Free(n) in st.semas
    ensures Core(SyncOf(Give(st, Free(n))))
  {
    hide Core, SyncOf;
    SyncCounts(st, Free(n));
    SyncGive(st, Free(n));
    FreeChanged(SyncOf(st), n, Upped(SyncOf(st), Free(n)).counts[Free(n)]);
  }

  lemma UpFree(st: State, n: nat)
    requires Inv(st) && Me(st).pc == Upping(n)
    ensures Core(SyncOf(GoTo(Leave(Give(st, Free(n)), Free(n)), User)))
  {
    hide Structure, SemasOk, Core, SyncOf;
    AtSemaphore(st);
    MyPc(st);
    var st1 := Give(st, Free(n));
    GivenFree(st, n);
    SyncGive(st, Free(n));
    GiveCur(st, Free(n));
    hide Give;
    SyncGoTo(st1, User);
    PlainUser(SyncOf(st1), st.cur);
  }

  lemma UpLock(st: State, l: nat)
    requires Inv(st) && (Me(st).pc.Released? || Me(st).pc.WaitReleased?) && Me(st).pc.l == l
    ensures Core(SyncOf(GoTo(Leave(Give(st, OfLock(l)), OfLock(l)), AfterUp(Me(st).pc))))
  {
    hide Structure, SemasOk, Core, SyncOf, GoTo, Leave, Give;
    AtSemaphore(st);
    MyPc(st);
    LockThere(SyncOf(st), st.cur, l);
    SyncLeave(st, l, AfterUp(Me(st).pc));
    LeftCore(SyncOf(st), st.cur, l);
  }

  lemma UpPrivate(st: State)
    requires Inv(st) && Me(st).pc.Waking?
    ensures var s := Private(Me(st).pc.w); Core(SyncOf(GoTo(Leave(Give(st, s), s), AfterUp(Me(st).pc))))
  {
    hide Structure, SemasOk, Core, SyncOf;
    AtSemaphore(st);
    MyPc(st);
    var s := Private(Me(st).pc.w);
    SyncGive(st, s);
    GiveCur(st, s);
    hide Give;
    SyncGoTo(Give(st, s), AfterUp(Me(st).pc));
    WokeCore(SyncOf(st), st.cur);
  }

  /** The steps that neither wait on nor up a semaphore. */
  lemma OtherCore(st: State)
    requires Inv(st) && Me(st).pc != User && !WaitsOn(Me(st).pc).Some? && !UpsNow(Me(st).pc).Some?
    ensures Core(SyncOf(OtherStep(st)))
  {
    hide Inv, Core, SyncOf, GoTo, TryStep, SignalStep, SetHolder, Enlist;
    AtSemaphore(st);
    MyPc(st);
    match Me(st).pc
    case Trying(n) => TryCore(st);
    case TryAcquiring(l) => TryCore(st);
    case Acquired(l) => HolderCore(st, l);
    case Releasing(l) => HolderCore(st, l);
    case WaitReleasing(c, l, w) => HolderCore(st, l);
    case Enlisting(c, l) => EnlistCore(st, c, l);
    case Signalling(c, l, all) => SignalCore(st, c, l, all);
  }

  lemma TryCore(st: State)
    requires Inv(st) && (Me(st).pc.Trying? || Me(st).pc.TryAcquiring?)
    ensures Core(SyncOf(OtherStep(st)))
  {
    hide Structure, SemasOk, Core, SyncOf, GoTo, Enter, Take;
    AtSemaphore(st);
    MyPc(st);
    SyncGoTo(st, User);
    PlainUser(SyncOf(st), st.cur);
    if Me(st).pc.Trying? {
      DownFree(st, Me(st).pc.n, User);
    } else if Sem(st, OfLock(Me(st).pc.l)).value > 0 {
      DownLock(st, Me(st).pc.l);
    }
  }

  lemma HolderCore(st: State, l: nat)
    requires Inv(st) && (Me(st).pc.Acquired? || Me(st).pc.Releasing? || Me(st).pc.WaitReleasing?) && Me(st).pc.l == l
    ensures Core(SyncOf(OtherStep(st)))
  {
    hide Structure, SemasOk, Core, SyncOf, GoTo, SetHolder;
    AtSemaphore(st);
    MyPc(st);
    if Me(st).pc.Acquired? {
      HolderStep(st, l, Some(st.cur), User);
      HolderSet(SyncOf(st), st.cur, l);
    } else {
      HolderStep(st, l, None, AfterClear(Me(st).pc));
      HolderCleared(SyncOf(st), st.cur, l);
    }
  }

  lemma EnlistCore(st: State, c: nat, l: nat)
    requires Inv(st) && Me(st).pc == Enlisting(c, l)
    ensures Core(SyncOf(OtherStep(st)))
  {
    hide Structure, SemasOk, Core, SyncOf, GoTo, Enlist;
    AtSemaphore(st);
    MyPc(st);
    SyncEnlist(st, c, l);
    EnlistedCore(SyncOf(st), st.cur, c, l);
  }

  lemma HolderStep(st: State, l: nat, holder: Option<Tid>, pc: Pc)
    requires st.cur in st.threads
    ensures SyncOf(GoTo(SetHolder(st, l, holder), pc)) == HeldBy(SyncOf(st), l, holder, st.cur, pc)
  {
    SyncGoTo(SetHolder(st, l, holder), pc);
    hide GoTo;
  }

  lemma SignalCore(st: State, c: nat, l: nat, all: bool)
    requires Inv(st) && Me(st).pc == Signalling(c, l, all)
    ensures Core(SyncOf(OtherStep(st)))
  {
    hide Structure, SemasOk, Core, SyncOf, GoTo;
    AtSemaphore(st);
    MyPc(st);
    var y, q := SyncOf(st), Queue(st, c);
    assert QueueOf(y, c) == q;
    if q == [] {
      SyncGoTo(st, User);
      PlainUser(y, st.cur);
    } else {
      PopStep(st, c, l, all);
      PoppingCore(y, st.cur, c, l, all);
    }
  }

  lemma PopStep(st: State, c: nat, l: nat, all: bool)
    requires st.cur in st.threads && Queue(st, c) != []
    ensures SyncOf(SignalStep(st, c, l, all)) == Popping(SyncOf(st), st.cur, c, l, all)
  {
    var q := Queue(st, c);
    SyncGoTo(st.(queues := st.queues[c := q[1..]]), Waking(c, l, q[0], all));
    hide GoTo;
  }

  lemma LockThere(y: Sync, t: Tid, l: nat)
    requires Core(y) && t in y.pcs
    requires OutsideAt(y.pcs[t], l) || WithinAt(y.pcs[t], l)
    ensures l in y.holders && l in y.inside && OfLock(l) in y.counts
  {
    assert PcOk(y, t, y.pcs[t]);
    assert LockOk(y, l);
    hide CondOk, WaiterOk;
  }

  /** Going back to user code from a position that carries no obligation. */
  lemma PlainUser(y: Sync, t: Tid)
    requires Core(y) && t in y.pcs
    requires
      var pc := y.pcs[t];
      pc.User? || pc.Downing? || pc.Upping? || pc.Trying? || pc.TryAcquiring? || pc.Signalling?
    ensures Core(MoveTo(y, t, User))
  {
    assert PcOk(y, t, y.pcs[t]);
    assert PcOk(y, t, User);
    hide Core, PcOk;
    MovePlain(y, t, User);
  }

  // ---------- Scheduling and counts through a step ----------

  lemma DownKept(st: State, s: SemaId, pc: Pc)
    requires Inv(st) && st.cur != IDLE && s in st.semas && Sem(st, s).value > 0
    requires WaitsOn(Me(st).pc) == Some(s) || !Me(st).woken
    ensures var st' := GoTo(Enter(Take(st, s), s), pc); Structure(st', Some(st'.cur)) && SemasOk(st')
  {
    hide Structure, SemasOk, Core, GoTo;
    TakenSemas(st, s, pc);
    var st1 := Enter(Take(st, s), s);
    SameStructure(st, st1);
    hide Take, Enter;
    GoToStructure(st1, pc);
    GoToCur(st1, pc);
  }

  lemma GoToCur(st: State, pc: Pc)
    ensures GoTo(st, pc).cur == st.cur
  {
  }

  lemma AsleepKept(st: State, s: SemaId)
    requires Inv(st) && st.cur != IDLE && s in st.semas && Sem(st, s).value == 0 && WaitsOn(Me(st).pc) == Some(s)
    ensures Inv(Dispatch(Asleep(st, s)))
  {
    assert st.cur in st.threads;
    hide Structure, SemasOk, Core, Dispatch, Asleep, SyncOf;
    AsleepStructure(st, s);
    DispatchStructure(Asleep(st, s));
    AsleepSemas(st, s);
    SyncAsleep(st, s);
    SyncDispatch(Asleep(st, s));
  }

  /** Moving on leaves the counts alone if the thread was not on its way to test a value. */
  lemma GoToSemas(st: State, pc: Pc)
    requires SemasOk(st) && st.cur in st.threads && !Me(st).woken
    ensures SemasOk(GoTo(st, pc))
  {
    var st' := GoTo(st, pc);
    forall s | s in st'.semas
      ensures st'.semas[s] == st.semas[s] && Woken(st', s) == Woken(st, s)
    {
      WokenGoTo(st, pc, s);
    }
    hide GoTo, SemaOk, Woken;
    SameSemas(st, st');
  }

  lemma UpKept(st: State, s: SemaId, pc: Pc)
    requires Inv(st) && st.cur != IDLE && s in st.semas && !Me(st).woken
    ensures var st' := GoTo(Leave(Give(st, s), s), pc); Structure(st', Some(st'.cur)) && SemasOk(st')
  {
    GiveMe(st, s);
    hide Structure, SemasOk, Core, GoTo;
    GiveStructure(st, s);
    GivenSemas(st, s);
    var st1 := Give(st, s);
    hide Give;
    var st2 := Leave(st1, s);
    SameStructure(st1, st2);
    LeaveSemas(st1, s);
    hide Leave;
    GoToStructure(st2, pc);
    GoToSemas(st2, pc);
    GoToCur(st2, pc);
  }

  lemma GiveMe(st: State, s: SemaId)
    requires Structure(st, Some(st.cur)) && s in st.semas
    ensures Give(st, s).cur == st.cur && st.cur in Give(st, s).threads && Me(Give(st, s)) == Me(st)
  {
    if st.semas[s].waiters != [] {
      FrontWaiter(st, s);
    }
  }

  lemma LeaveSemas(st: State, s: SemaId)
    requires SemasOk(st)
    ensures SemasOk(Leave(st, s))
  {
    forall q | q in st.semas
      ensures SemaOk(Leave(st, s), q)
    {
      assert SemaOk(st, q);
      assert Woken(Leave(st, s), q) == Woken(st, q);
    }
  }

  /** A step that touches neither threads nor semaphores, and then moves on. */
  lemma QuietKept(st: State, st1: State, pc: Pc)
    requires Inv(st) && st.cur != IDLE && !Me(st).woken
    requires st1.threads == st.threads && st1.cur == st.cur && st1.ready == st.ready && st1.nextTid == st.nextTid
    requires st1.semas == st.semas
    ensures var st' := GoTo(st1, pc); Structure(st', Some(st'.cur)) && SemasOk(st')
  {
    assert st.cur in st.threads;
    assert forall s :: Woken(st1, s) == Woken(st, s);
    hide Structure, Core, GoTo, Woken;
    SameStructure(st, st1);
    SameSemas(st, st1);
    GoToStructure(st1, pc);
    GoToSemas(st1, pc);
    GoToCur(st1, pc);
  }

  lemma EnlistKept(st: State, c: nat, pc: Pc)
    requires Inv(st) && st.cur != IDLE && !Me(st).woken
    ensures var st' := GoTo(Enlist(st, c), pc); Structure(st', Some(st'.cur)) && SemasOk(st')
  {
    var st1 := Enlist(st, c);
    assert st.cur in st.threads;
    NewWaiter(st);
    hide Core, GoTo, Structure;
    SameStructure(st, st1);
    forall s | s in st1.semas
      ensures SemaOk(st1, s)
    {
      assert s in st.semas ==> SemaOk(st, s);
      assert Woken(st1, s) == Woken(st, s);
    }
    hide SemasOk;
    GoToStructure(st1, pc);
    GoToSemas(st1, pc);
    GoToCur(st1, pc);
  }

  lemma NewWaiter(st: State)
    requires Core(SyncOf(st))
    ensures Private(st.nextWaiter) !in st.semas
  {
    SyncCounts(st, Private(st.nextWaiter));
  }

  // ---------- Every step ----------

  lemma ExecKept(st: State)
    requires Inv(st) && Me(st).pc != User
    ensures Inv(Executed(st))
  {
    AtSemaphore(st);
    var pc := Me(st).pc;
    if WaitsOn(pc).Some? {
      var s := WaitsOn(pc).value;
      if Sem(st, s).value > 0 {
        hide GoTo, Enter, Take, Core, SyncOf, Structure, SemasOk;
        DownKept(st, s, AfterDown(pc));
        DownCore(st, s);
      } else {
        hide Inv, Asleep, Dispatch;
        AsleepKept(st, s);
      }
    } else if UpsNow(pc).Some? {
      var s := UpsNow(pc).value;
      hide GoTo, Leave, Give, Core, SyncOf, Structure, SemasOk;
      UpKept(st, s, AfterUp(pc));
      UpCore(st, s);
    } else {
      hide Core, SyncOf, Structure, SemasOk, OtherStep;
      OtherCore(st);
      OtherKept(st);
    }
  }

  lemma OtherKept(st: State)
    requires Inv(st) && Me(st).pc != User && !WaitsOn(Me(st).pc).Some? && !UpsNow(Me(st).pc).Some?
    ensures var st' := OtherStep(st); Structure(st', Some(st'.cur)) && SemasOk(st')
  {
    hide Inv, Structure, SemasOk, GoTo, Enter, Take;
    AtSemaphore(st);
    match Me(st).pc
    case Trying(n) => TryKept(st, Free(n), User);
    case TryAcquiring(l) => TryKept(st, OfLock(l), Acquired(l));
    case Acquired(l) => QuietKept(st, SetHolder(st, l, Some(st.cur)), User);
    case Releasing(l) => QuietKept(st, SetHolder(st, l, None), Released(l));
    case WaitReleasing(c, l, w) => QuietKept(st, SetHolder(st, l, None), WaitReleased(c, l, w));
    case Enlisting(c, l) => EnlistKept(st, c, WaitReleasing(c, l, st.nextWaiter));
    case Signalling(c, l, all) =>
      var q := Queue(st, c);
      if q == [] {
        QuietKept(st, st, User);
      } else {
        QuietKept(st, st.(queues := st.queues[c := q[1..]]), Waking(c, l, q[0], all));
      }
  }

  lemma TryKept(st: State, s: SemaId, pc: Pc)
    requires Inv(st) && st.cur != IDLE && s in st.semas && !Me(st).woken
    ensures var st' := TryStep(st, s, pc); Structure(st', Some(st'.cur)) && SemasOk(st')
  {
    hide Inv, Structure, SemasOk, GoTo, Enter, Take;
    if Sem(st, s).value > 0 {
      DownKept(st, s, pc);
    } else {
      QuietKept(st, st, User);
    }
  }

  lemma InUser(st: State)
    requires Structure(st, Some(st.cur)) && Me(st).pc == User
    ensures st.cur in st.threads && !Me(st).woken
  {
    assert ThreadOk(st, st.cur);
  }

  lemma CallKept(st: State, pc: Pc)
    requires Inv(st) && Enabled(st, Call(pc))
    ensures Inv(GoTo(st, pc))
  {
    hide SemasOk, GoTo, Structure, SyncOf, CallOk, Core;
    InUser(st);
    MyPc(st);
    CallPc(st, pc);
    QuietKept(st, st, pc);
    SyncGoTo(st, pc);
    MovePlain(SyncOf(st), st.cur, pc);
  }

  /** The assertions at the head of a primitive are what its first position needs. */
  lemma CallPc(st: State, pc: Pc)
    requires Core(SyncOf(st)) && st.cur in st.threads && Me(st).pc == User && CallOk(st, pc)
    ensures PcOk(SyncOf(st), st.cur, pc)
    ensures (forall l :: !WithinAt(pc, l)) && (forall w :: !AwaitsAt(pc, w))
  {
    hide Core, SyncOf, PcOk, WithinAt, AwaitsAt, Outside;
    SyncFields(st, pc);
    CurIsOld(st);
    if pc.Acquiring? || pc.TryAcquiring? {
      NotInside(st, pc.l);
    }
    FirstPc(SyncOf(st), st.cur, pc);
  }

  lemma CurIsOld(st: State)
    requires Core(SyncOf(st)) && st.cur in st.threads
    ensures st.cur < SyncOf(st).nextTid
  {
    var y := SyncOf(st);
    assert st.cur in y.pcs && PcOk(y, st.cur, y.pcs[st.cur]);
  }

  lemma SyncFields(st: State, pc: Pc)
    ensures SyncOf(st).holders == st.holders && SyncOf(st).condLocks == st.condLocks
    ensures pc.Downing? || pc.Upping? || pc.Trying? ==> (Free(pc.n) in SyncOf(st).counts <==> Free(pc.n) in st.semas)
  {
  }

  lemma FirstPc(y: Sync, t: Tid, pc: Pc)
    requires t < y.nextTid
    requires pc.Downing? || pc.Upping? || pc.Trying? || pc.Acquiring? || pc.TryAcquiring? || pc.Releasing?
      || pc.Enlisting? || pc.Signalling?
    requires pc.Downing? || pc.Upping? || pc.Trying? ==> Free(pc.n) in y.counts
    requires pc.Acquiring? || pc.TryAcquiring? ==> Outside(y, t, pc.l)
    requires pc.Releasing? || pc.Enlisting? || pc.Signalling? ==> Holds(y, t, pc.l)
    requires pc.Enlisting? || pc.Signalling? ==> pc.c in y.condLocks && y.condLocks[pc.c] == pc.l
    ensures PcOk(y, t, pc)
    ensures (forall l :: !WithinAt(pc, l)) && (forall w :: !AwaitsAt(pc, w))
  {
  }

  /** A thread in user code that is not the holder of a lock is not inside it. */
  lemma NotInside(st: State, l: nat)
    requires Core(SyncOf(st)) && st.cur in st.threads && Me(st).pc == User
    requires l in st.holders && st.holders[l] != Some(st.cur)
    ensures Outside(SyncOf(st), st.cur, l)
  {
    var y := SyncOf(st);
    assert LockOk(y, l);
    assert st.cur in Inside(y, l) ==> IsInside(y, st.cur, l);
  }

  lemma YieldedKept(st: State)
    requires Inv(st) && !Me(st).woken
    ensures Inv(Dispatch(Yielded(st)))
  {
    assert st.cur in st.threads;
    hide Structure, Core, SyncOf, Dispatch;
    YieldedStructure(st);
    DispatchStructure(Yielded(st));
    SyncYielded(st);
    SyncDispatch(Yielded(st));
    hide Yielded, SemasOk;
    YieldedSemas(st);
    DispatchSemas(Yielded(st));
  }

  lemma YieldedSemas(st: State)
    requires SemasOk(st) && st.cur in st.threads
    ensures SemasOk(Yielded(st))
  {
    assert forall s :: Woken(Yielded(st), s) == Woken(st, s);
    hide Woken, SemaOk;
    SameSemas(st, Yielded(st));
  }

  lemma DispatchSemas(st: State)
    ensures SemasOk(st) ==> SemasOk(Dispatch(st))
  {
    if SemasOk(st) {
      forall s | s in Dispatch(st).semas
        ensures SemaOk(Dispatch(st), s)
      {
        assert SemaOk(st, s);
        WokenDispatch(st, s);
      }
    }
  }

  lemma IdleBlockedKept(st: State)
    requires Inv(st) && st.cur == IDLE
    ensures Inv(Dispatch(IdleBlocked(st)))
  {
    assert st.cur in st.threads && ThreadOk(st, IDLE);
    hide Structure, Core, SyncOf, Dispatch;
    IdleBlockedStructure(st);
    DispatchStructure(IdleBlocked(st));
    SyncThread(st, IDLE, Thread(Blocked, User, false));
    SyncDispatch(IdleBlocked(st));
    hide SemasOk;
    IdleBlockedSemas(st);
    DispatchSemas(IdleBlocked(st));
  }

  lemma IdleBlockedSemas(st: State)
    requires SemasOk(st) && IDLE in st.threads && !st.threads[IDLE].woken
    ensures SemasOk(IdleBlocked(st))
  {
    assert forall s :: Woken(IdleBlocked(st), s) == Woken(st, s);
    hide Woken, SemaOk;
    SameSemas(st, IdleBlocked(st));
  }

  lemma InterruptKept(st: State, n: nat)
    requires Inv(st) && Free(n) in st.semas
    ensures Inv(Give(st, Free(n)))
  {
    hide Structure, SemasOk, Core, SyncOf, Give;
    GiveStructure(st, Free(n));
    GivenSemas(st, Free(n));
    GivenFree(st, n);
    GiveCur(st, Free(n));
  }

  lemma SpawnedKept(st: State)
    requires Inv(st)
    ensures Inv(Spawned(st))
  {
    hide Structure, Core, SyncOf, SemasOk;
    NewTid(st);
    SpawnedStructure(st);
    SyncSpawned(st);
    SpawnedCore(SyncOf(st));
    SpawnedSemas(st);
  }

  lemma NewTid(st: State)
    requires Structure(st, Some(st.cur))
    ensures st.nextTid !in st.threads
  {
    assert st.nextTid in st.threads ==> ThreadOk(st, st.nextTid);
  }

  lemma SyncSpawned(st: State)
    ensures SyncOf(Spawned(st)) == MoveTo(SyncOf(st).(nextTid := SyncOf(st).nextTid + 1), SyncOf(st).nextTid, User)
  {
    assert SyncOf(Spawned(st)).pcs == SyncOf(st).pcs[st.nextTid := User];
  }

  lemma SpawnedSemas(st: State)
    requires SemasOk(st) && st.nextTid !in st.threads
    ensures SemasOk(Spawned(st))
  {
    assert forall s :: Woken(Spawned(st), s) == Woken(st, s);
    hide Woken, SemaOk;
    SameSemas(st, Spawned(st));
  }

  lemma GoneKept(st: State)
    requires Inv(st) && st.cur != IDLE && Me(st).pc == User
    ensures Inv(Dispatch(Gone(st)))
  {
    hide Structure, Core, Dispatch, Woken, SemaOk;
    var st1 := Gone(st);
    GoneFacts(st);
    GoneStructure(st);
    DispatchStructure(st1);
    GoneCore(SyncOf(st), st.cur);
    SyncDispatch(st1);
    SameSemas(st, st1);
    DispatchSemas(st1);
  }

  lemma GoneFacts(st: State)
    requires Inv(st) && Me(st).pc == User
    ensures st.cur in st.threads && ThreadOk(st, st.cur)
    ensures st.cur in SyncOf(st).pcs && SyncOf(st).pcs[st.cur] == User
    ensures SyncOf(Gone(st)).pcs == SyncOf(st).pcs - {st.cur}
    ensures forall s :: Woken(Gone(st), s) == Woken(st, s)
  {
    assert st.cur in st.threads && ThreadOk(st, st.cur);
    hide Structure, Core, SemasOk, SyncOf, Woken, Gone, ThreadOk;
    MyPc(st);
    GonePcs(st);
    forall s
      ensures Woken(Gone(st), s) == Woken(st, s)
    {
      GoneWoken(st, s);
    }
  }

  lemma GonePcs(st: State)
    ensures SyncOf(Gone(st)).pcs == SyncOf(st).pcs - {st.cur}
  {
  }

  lemma GoneWoken(st: State, s: SemaId)
    requires st.cur in st.threads && Me(st).pc == User
    ensures Woken(Gone(st), s) == Woken(st, s)
  {
  }

  /** Whatever step is taken, the invariant survives. */
  lemma StepKept(st: State, a: Action)
    requires Inv(st) && Enabled(st, a)
    ensures Inv(Apply(st, a))
  {
    hide Inv;
    match a
    case Call(pc) => CallKept(st, pc);
    case Exec => ExecKept(st);
    case Preempt => YieldedKept(st);
    case IdleBlock => IdleBlockedKept(st);
    case InterruptUp(n) => InterruptKept(st, n);
    case Create => SpawnedKept(st);
    case Exit => GoneKept(st);
  }

  /** The state thread_start() leaves behind satisfies the invariant. */
  lemma StartInv(values: map<nat, nat>, locks: set<nat>, condLocks: map<nat, nat>)
    requires forall c :: c in condLocks ==> condLocks[c] in locks
    ensures Inv(Start(values, locks, condLocks))
  {
    StartStructure(values, locks, condLocks);
    StartSemas(values, locks, condLocks);
    StartCore(values, locks, condLocks);
    hide Structure, SemasOk, Core;
  }

  lemma StartStructure(values: map<nat, nat>, locks: set<nat>, condLocks: map<nat, nat>)
    ensures var st := Start(values, locks, condLocks); Structure(st, Some(st.cur))
  {
    var st := Start(values, locks, condLocks);
    assert forall s :: s in st.semas ==> st.semas[s].waiters == [];
  }

  lemma StartSemas(values: map<nat, nat>, locks: set<nat>, condLocks: map<nat, nat>)
    ensures SemasOk(Start(values, locks, condLocks))
  {
  }

  lemma StartCore(values: map<nat, nat>, locks: set<nat>, condLocks: map<nat, nat>)
    requires forall c :: c in condLocks ==> condLocks[c] in locks
    ensures Core(SyncOf(Start(values, locks, condLocks)))
  {
    hide PcOk, LockOk, CondOk, WaiterOk, Start, SyncOf;
    StartPcs(values, locks, condLocks);
    StartLocks(values, locks, condLocks);
    StartConds(values, locks, condLocks);
  }

  lemma StartPcs(values: map<nat, nat>, locks: set<nat>, condLocks: map<nat, nat>)
    ensures
      var y := SyncOf(Start(values, locks, condLocks));
      && (forall t :: t in y.pcs ==> PcOk(y, t, y.pcs[t]))
      && (forall s :: s in y.counts && s.Private? ==> s.w < y.nextWaiter)
      && y.nextWaiter == 0
  {
    hide PcOk;
    var st := Start(values, locks, condLocks);
    var y := SyncOf(st);
    StartFields(values, locks, condLocks);
    hide Start, SyncOf;
    forall t | t in y.pcs
      ensures PcOk(y, t, y.pcs[t])
    {
      UserOk(y, t);
    }
  }

  lemma StartFields(values: map<nat, nat>, locks: set<nat>, condLocks: map<nat, nat>)
    ensures
      var y := SyncOf(Start(values, locks, condLocks));
      && (forall t :: t in y.pcs ==> t < y.nextTid && y.pcs[t] == User)
      && (forall s :: s in y.counts ==> !s.Private?)
      && y.nextWaiter == 0
  {
    var st := Start(values, locks, condLocks);
    StartIds(values, locks, condLocks);
    assert st.threads.Keys == {IDLE, 1} && st.nextTid == 2 && st.nextWaiter == 0;
    assert st.threads[IDLE].pc == User && st.threads[1].pc == User;
    hide Start;
  }

  lemma StartIds(values: map<nat, nat>, locks: set<nat>, condLocks: map<nat, nat>)
    ensures forall s :: s in Start(values, locks, condLocks).semas ==> !s.Private?
  {
  }

  lemma UserOk(y: Sync, t: Tid)
    requires t < y.nextTid
    ensures PcOk(y, t, User)
  {
  }

  lemma StartConds(values: map<nat, nat>, locks: set<nat>, condLocks: map<nat, nat>)
    requires forall c :: c in condLocks ==> condLocks[c] in locks
    ensures var y := SyncOf(Start(values, locks, condLocks)); forall c :: c in y.condLocks ==> CondOk(y, c)
  {
    var y := SyncOf(Start(values, locks, condLocks));
    assert forall c :: c in y.condLocks ==> QueueOf(y, c) == [];
  }

  lemma StartLocks(values: map<nat, nat>, locks: set<nat>, condLocks: map<nat, nat>)
    ensures var y := SyncOf(Start(values, locks, condLocks)); forall l :: l in y.holders ==> LockOk(y, l)
  {
    var y := SyncOf(Start(values, locks, condLocks));
    forall l | l in y.holders
      ensures LockOk(y, l)
    {
      assert l in locks && Cnt(y, OfLock(l)).value == 1 && Inside(y, l) == {};
    }
  }

  /** The invariant holds after every run, whatever the threads do and however they interleave. */
  lemma {:induction false} RunKept(st: State, actions: seq<Action>)
    requires Inv(st) && Possible(st, actions)
    ensures Inv(Run(st, actions))
  {
    hide Inv, Apply, Enabled;
    if actions != [] {
      var front := actions[..|actions| - 1];
      RunKept(st, front);
      StepKept(Run(st, front), actions[|actions| - 1]);
    }
  }
}
