/**
 Locks and condition variables: what every step keeps about who is inside a lock and
 about every signal sent to a waiter.  Scheduling is no matter here, so this part
 looks at a state through `Sync`, which leaves it out.
 */
module SynchLocks {

  import opened Options
  import opened Synch

  datatype Counts = Counts(value: nat, initial: nat, ups: nat, downs: nat)

  datatype Sync = Sync(
    pcs: map<Tid, Pc>,
    counts: map<SemaId, Counts>,
    holders: map<nat, Option<Tid>>,
    queues: map<nat, seq<nat>>,
    condLocks: map<nat, nat>,
    nextTid: Tid,
    nextWaiter: nat,
    inside: map<nat, set<Tid>>,
    waiterOf: map<nat, Tid>,
    origin: map<nat, nat>)

  function CountsOf(x: Sema): Counts {
    Counts(x.value, x.initial, x.ups, x.downs)
  }

  function SyncOf(st: State): Sync {
    Sync(
      map t | t in st.threads :: st.threads[t].pc,
      map s | s in st.semas :: CountsOf(st.semas[s]),
      st.holders, st.queues, st.condLocks, st.nextTid, st.nextWaiter, st.inside, st.waiterOf, st.origin)
  }

  function Cnt(y: Sync, s: SemaId): Counts {
    if s in y.counts then y.counts[s] else Counts(0, 0, 0, 0)
  }

  function Inside(y: Sync, l: nat): set<Tid> {
    if l in y.inside then y.inside[l] else {}
  }

  function QueueOf(y: Sync, c: nat): seq<nat> {
    if c in y.queues then y.queues[c] else []
  }

  // ---------- What positions mean ----------

  /** Positions inside a lock at which the thread is its holder. */
  predicate HoldsAt(pc: Pc, l: nat) {
    (pc.Releasing? || pc.Enlisting? || pc.WaitReleasing? || pc.Signalling? || pc.Waking?) && pc.l == l
  }

  /** Positions inside a lock at which the holder field is clear: just in, or about to be out. */
  predicate WithinAt(pc: Pc, l: nat) {
    (pc.Acquired? || pc.Released? || pc.WaitReleased?) && pc.l == l
  }

  /** Positions of a thread that wants a lock it is not inside. */
  predicate OutsideAt(pc: Pc, l: nat) {
    (pc.Acquiring? || pc.TryAcquiring? || pc.Waiting?) && pc.l == l
  }

  predicate CondAt(pc: Pc, c: nat, l: nat) {
    (pc.Enlisting? || pc.WaitReleasing? || pc.WaitReleased? || pc.Waiting? || pc.Signalling? || pc.Waking?)
      && pc.c == c && pc.l == l
  }

  /** Positions of a thread that has enlisted as `w` and not come through yet. */
  predicate AwaitsAt(pc: Pc, w: nat) {
    (pc.WaitReleasing? || pc.WaitReleased? || pc.Waiting?) && pc.w == w
  }

  predicate WakesAt(pc: Pc, w: nat) {
    pc.Waking? && pc.w == w
  }

  predicate FreeAt(pc: Pc, n: nat) {
    (pc.Downing? || pc.Upping? || pc.Trying?) && pc.n == n
  }

  ghost predicate Holds(y: Sync, t: Tid, l: nat) {
    l in y.holders && y.holders[l] == Some(t)
  }

  /** `t` alone is between the down that acquired the lock and the up that will release it, but is not the holder. */
  ghost predicate Within(y: Sync, t: Tid, l: nat) {
    l in y.holders && y.holders[l] == None && Inside(y, l) == {t}
  }

  ghost predicate Outside(y: Sync, t: Tid, l: nat) {
    l in y.holders && t !in Inside(y, l)
  }

  /** `w` is the private semaphore of thread `t`, and `t` has not come through it yet. */
  ghost predicate WaitsFor(y: Sync, t: Tid, w: nat) {
    w < y.nextWaiter && w in y.waiterOf && y.waiterOf[w] == t && Cnt(y, Private(w)).downs == 0
  }

  ghost predicate CameTo(y: Sync, w: nat, c: nat) {
    w < y.nextWaiter && w in y.origin && y.origin[w] == c
  }

  /** `w` has been taken off the queue of `c` but its semaphore has not been upped yet. */
  ghost predicate Popped(y: Sync, c: nat, w: nat) {
    CameTo(y, w, c) && w !in QueueOf(y, c) && Cnt(y, Private(w)).ups == 0
  }

  /** What a thread's position says about locks and conditions. */
  ghost predicate PcOk(y: Sync, t: Tid, pc: Pc) {
    && t < y.nextTid
    && (forall n :: FreeAt(pc, n) ==> Free(n) in y.counts)
    && (forall l :: HoldsAt(pc, l) ==> Holds(y, t, l))
    && (forall l :: WithinAt(pc, l) ==> Within(y, t, l))
    && (forall l :: OutsideAt(pc, l) ==> Outside(y, t, l))
    && (forall c, l :: CondAt(pc, c, l) ==> c in y.condLocks && y.condLocks[c] == l)
    && (forall w :: AwaitsAt(pc, w) ==> WaitsFor(y, t, w) && CameTo(y, w, pc.c))
    && (forall w :: WakesAt(pc, w) ==> Popped(y, pc.c, w))
  }

  ghost predicate IsInside(y: Sync, t: Tid, l: nat) {
    t < y.nextTid && (t in y.pcs ==> Holds(y, t, l) || WithinAt(y.pcs[t], l))
  }

  /** The value plus the number of threads inside is 1, and the holder, if any, is the thread inside. */
  ghost predicate LockOk(y: Sync, l: nat) {
    && l in y.holders && OfLock(l) in y.counts && l in y.inside
    && Cnt(y, OfLock(l)).value + |Inside(y, l)| == 1
    && (y.holders[l].Some? ==> Inside(y, l) == {y.holders[l].value})
    && (forall t :: t in Inside(y, l) ==> IsInside(y, t, l))
  }

  ghost predicate Increasing(q: seq<nat>) {
    forall i, j :: 0 <= i < j < |q| ==> q[i] < q[j]
  }

  /** A condition's queue holds its waiters in the order in which they came. */
  ghost predicate CondOk(y: Sync, c: nat) {
    && c in y.condLocks && y.condLocks[c] in y.holders
    && Increasing(QueueOf(y, c))
    && (forall w :: w in QueueOf(y, c) ==> CameTo(y, w, c))
  }

  /** The holder of the condition's lock has popped `w` and is about to up its semaphore. */
  ghost predicate Pending(y: Sync, w: nat, l: nat) {
    l in y.holders && y.holders[l].Some? && y.holders[l].value in y.pcs && WakesAt(y.pcs[y.holders[l].value], w)
  }

  ghost predicate Awaited(y: Sync, w: nat) {
    w in y.waiterOf && y.waiterOf[w] in y.pcs && AwaitsAt(y.pcs[y.waiterOf[w]], w)
  }

  /** A waiter is queued, about to be woken, or has been signalled, exactly once. */
  ghost predicate WaiterOk(y: Sync, w: nat) {
    var x := Cnt(y, Private(w));
    && Private(w) in y.counts && x.initial == 0 && x.ups <= 1
    && w in y.origin && y.origin[w] in y.condLocks && w in y.waiterOf
    && (w in QueueOf(y, y.origin[w]) ==> x.ups == 0)
    && (x.ups == 0 ==> w in QueueOf(y, y.origin[w]) || Pending(y, w, y.condLocks[y.origin[w]]))
    && (x.downs == 0 ==> Awaited(y, w))
  }

  ghost predicate Core(y: Sync) {
    && (forall t :: t in y.pcs ==> PcOk(y, t, y.pcs[t]))
    && (forall l :: l in y.holders ==> LockOk(y, l))
    && (forall c :: c in y.condLocks ==> CondOk(y, c))
    && (forall w :: 0 <= w < y.nextWaiter ==> WaiterOk(y, w))
    && (forall s :: s in y.counts && s.Private? ==> s.w < y.nextWaiter)
  }

  /** The semaphore a thread is at exists. */
  lemma SemaThere(y: Sync, t: Tid)
    requires Core(y) && t in y.pcs
    ensures WaitsOn(y.pcs[t]).Some? ==> WaitsOn(y.pcs[t]).value in y.counts
    ensures UpsNow(y.pcs[t]).Some? ==> UpsNow(y.pcs[t]).value in y.counts
    ensures y.pcs[t].Trying? ==> Free(y.pcs[t].n) in y.counts
    ensures y.pcs[t].TryAcquiring? ==> y.pcs[t].l in y.holders && OfLock(y.pcs[t].l) in y.counts
  {
    hide CondOk;
    var pc := y.pcs[t];
    assert PcOk(y, t, pc);
    if pc.Downing? || pc.Upping? || pc.Trying? {
      assert FreeAt(pc, pc.n);
    } else if pc.Acquiring? || pc.TryAcquiring? {
      assert OutsideAt(pc, pc.l) && LockOk(y, pc.l);
    } else if pc.Released? || pc.WaitReleased? {
      assert WithinAt(pc, pc.l) && LockOk(y, pc.l);
    } else if pc.Waiting? {
      assert AwaitsAt(pc, pc.w) && WaiterOk(y, pc.w);
    } else if pc.Waking? {
      assert WakesAt(pc, pc.w) && WaiterOk(y, pc.w);
    }
  }

  // ---------- What each part of the invariant depends on ----------

  /** A position keeps its meaning if its own lock, waiter and condition are left alone. */
  lemma PcKept(y: Sync, y': Sync, t: Tid, pc: Pc)
    requires PcOk(y, t, pc) && y.nextTid <= y'.nextTid && y.nextWaiter <= y'.nextWaiter
    requires forall n :: Free(n) in y.counts ==> Free(n) in y'.counts
    requires forall l :: HoldsAt(pc, l) && Holds(y, t, l) ==> Holds(y', t, l)
    requires forall l :: WithinAt(pc, l) && Within(y, t, l) ==> Within(y', t, l)
    requires forall l :: OutsideAt(pc, l) && Outside(y, t, l) ==> Outside(y', t, l)
    requires y'.condLocks == y.condLocks
    requires forall w :: 0 <= w < y.nextWaiter && w in y.origin ==> w in y'.origin && y'.origin[w] == y.origin[w]
    requires forall w :: AwaitsAt(pc, w) && WaitsFor(y, t, w) ==> WaitsFor(y', t, w)
    requires forall w :: WakesAt(pc, w) && Popped(y, pc.c, w) ==> Popped(y', pc.c, w)
    ensures PcOk(y', t, pc)
  {
  }

  lemma LockKept(y: Sync, y': Sync, l: nat)
    requires LockOk(y, l) && y.nextTid <= y'.nextTid
    requires l in y'.holders && y'.holders[l] == y.holders[l]
    requires l in y'.inside && y'.inside[l] == y.inside[l]
    requires OfLock(l) in y'.counts && y'.counts[OfLock(l)] == y.counts[OfLock(l)]
    requires forall t :: t in y'.pcs && t in Inside(y, l) ==>
      WithinAt(y'.pcs[t], l) == WithinAt(if t in y.pcs then y.pcs[t] else User, l) || Holds(y, t, l)
    requires forall t :: t in y'.pcs && t < y.nextTid ==> t in y.pcs
    ensures LockOk(y', l)
  {
    forall t | t in Inside(y', l)
      ensures IsInside(y', t, l)
    {
      assert IsInside(y, t, l);
    }
  }

  lemma CondKept(y: Sync, y': Sync, c: nat)
    requires CondOk(y, c) && y'.condLocks == y.condLocks && y.nextWaiter <= y'.nextWaiter
    requires y'.holders.Keys == y.holders.Keys
    requires QueueOf(y', c) == QueueOf(y, c)
    requires forall w :: 0 <= w < y.nextWaiter && w in y.origin ==> w in y'.origin && y'.origin[w] == y.origin[w]
    ensures CondOk(y', c)
  {
    assert forall w :: w in QueueOf(y', c) ==> CameTo(y, w, c);
  }

  lemma WaiterKept(y: Sync, y': Sync, w: nat)
    requires WaiterOk(y, w) && y'.condLocks == y.condLocks
    requires w in y'.origin && y'.origin[w] == y.origin[w] && w in y'.waiterOf && y'.waiterOf[w] == y.waiterOf[w]
    requires Private(w) in y'.counts && y'.counts[Private(w)] == y.counts[Private(w)]
    requires w in QueueOf(y', y.origin[w]) <==> w in QueueOf(y, y.origin[w])
    requires forall l :: Pending(y, w, l) ==> Pending(y', w, l)
    requires Awaited(y, w) ==> Awaited(y', w)
    ensures WaiterOk(y', w)
  {
  }

  // ---------- Steps as locks and conditions see them ----------

  function MoveTo(y: Sync, t: Tid, pc: Pc): Sync {
    y.(pcs := y.pcs[t := pc])
  }

  function Downed(y: Sync, s: SemaId): Sync {
    var x := Cnt(y, s);
    y.(counts := y.counts[s := x.(value := if x.value > 0 then x.value - 1 else 0, downs := x.downs + 1)])
  }

  function Upped(y: Sync, s: SemaId): Sync {
    var x := Cnt(y, s);
    y.(counts := y.counts[s := x.(value := x.value + 1, ups := x.ups + 1)])
  }

  /** A thread moves between positions that say nothing about being inside a lock or waiting. */
  lemma MovePlain(y: Sync, t: Tid, pc: Pc)
    requires Core(y) && t in y.pcs && PcOk(y, t, pc)
    requires forall l :: WithinAt(y.pcs[t], l) == WithinAt(pc, l)
    requires forall w :: AwaitsAt(y.pcs[t], w) == AwaitsAt(pc, w)
    requires !y.pcs[t].Waking?
    ensures Core(MoveTo(y, t, pc))
  {
    hide PcOk, LockOk, CondOk, WaiterOk;
    var y' := MoveTo(y, t, pc);
    forall u | u in y'.pcs
      ensures PcOk(y', u, y'.pcs[u])
    {
      PcKept(y, y', u, y'.pcs[u]);
    }
    forall l | l in y'.holders
      ensures LockOk(y', l)
    {
      MoveLock(y, t, pc, l);
    }
    forall c | c in y'.condLocks
      ensures CondOk(y', c)
    {
      CondKept(y, y', c);
    }
    forall w | 0 <= w < y'.nextWaiter
      ensures WaiterOk(y', w)
    {
      MoveWaiter(y, t, pc, w);
    }
  }

  lemma MoveLock(y: Sync, t: Tid, pc: Pc, l: nat)
    requires t in y.pcs && LockOk(y, l) && WithinAt(y.pcs[t], l) == WithinAt(pc, l)
    ensures LockOk(MoveTo(y, t, pc), l)
  {
    forall u | u in Inside(y, l)
      ensures IsInside(MoveTo(y, t, pc), u, l)
    {
      assert IsInside(y, u, l);
    }
  }

  lemma MoveWaiter(y: Sync, t: Tid, pc: Pc, w: nat)
    requires t in y.pcs && WaiterOk(y, w) && AwaitsAt(y.pcs[t], w) == AwaitsAt(pc, w) && !y.pcs[t].Waking?
    ensures WaiterOk(MoveTo(y, t, pc), w)
  {
    WaiterKept(y, MoveTo(y, t, pc), w);
  }

  /** Free-standing semaphores are no matter to locks and conditions. */
  lemma FreeChanged(y: Sync, n: nat, x: Counts)
    requires Core(y) && Free(n) in y.counts
    ensures Core(y.(counts := y.counts[Free(n) := x]))
  {
    hide PcOk, LockOk, CondOk, WaiterOk;
    var y' := y.(counts := y.counts[Free(n) := x]);
    forall u | u in y'.pcs
      ensures PcOk(y', u, y'.pcs[u])
    {
      PcKept(y, y', u, y.pcs[u]);
    }
    forall l | l in y'.holders
      ensures LockOk(y', l)
    {
      FreeChangedLock(y, n, x, l);
    }
    forall c | c in y'.condLocks
      ensures CondOk(y', c)
    {
      CondKept(y, y', c);
    }
    forall w | 0 <= w < y'.nextWaiter
      ensures WaiterOk(y', w)
    {
      FreeChangedWaiter(y, n, x, w);
    }
  }

  lemma FreeChangedLock(y: Sync, n: nat, x: Counts, l: nat)
    requires LockOk(y, l)
    ensures LockOk(y.(counts := y.counts[Free(n) := x]), l)
  {
    LockKept(y, y.(counts := y.counts[Free(n) := x]), l);
  }

  lemma FreeChangedWaiter(y: Sync, n: nat, x: Counts, w: nat)
    requires WaiterOk(y, w)
    ensures WaiterOk(y.(counts := y.counts[Free(n) := x]), w)
  {
    WaiterKept(y, y.(counts := y.counts[Free(n) := x]), w);
  }

  // ---------- A lock's semaphore is downed ----------

  function Entered(y: Sync, t: Tid, l: nat): Sync {
    var d := Downed(y, OfLock(l));
    MoveTo(d.(inside := d.inside[l := Inside(d, l) + {t}]), t, Acquired(l))
  }

  /** The value was 1, so nobody was inside. */
  lemma NobodyInside(y: Sync, l: nat)
    requires LockOk(y, l) && Cnt(y, OfLock(l)).value > 0
    ensures Cnt(y, OfLock(l)).value == 1 && Inside(y, l) == {} && y.holders[l] == None
  {
  }

  lemma EnteredCore(y: Sync, t: Tid, l: nat)
    requires Core(y) && t in y.pcs && l in y.holders && Cnt(y, OfLock(l)).value > 0
    requires y.pcs[t] == Acquiring(l) || y.pcs[t] == TryAcquiring(l)
    ensures Core(Entered(y, t, l))
  {
    hide LockOk, CondOk, WaiterOk;
    var y' := Entered(y, t, l);
    assert PcOk(y, t, y.pcs[t]) && t < y.nextTid;
    hide PcOk;
    NobodyInside(y, l);
    forall u | u in y'.pcs
      ensures PcOk(y', u, y'.pcs[u])
    {
      EnteredPc(y, t, l, u);
    }
    forall k | k in y'.holders
      ensures LockOk(y', k)
    {
      EnteredLock(y, t, l, k);
    }
    forall c | c in y'.condLocks
      ensures CondOk(y', c)
    {
      CondKept(y, y', c);
    }
    forall w | 0 <= w < y'.nextWaiter
      ensures WaiterOk(y', w)
    {
      EnteredWaiter(y, t, l, w);
    }
  }

  lemma EnteredPc(y: Sync, t: Tid, l: nat, u: Tid)
    requires t in y.pcs && u in y.pcs && PcOk(y, u, y.pcs[u]) && PcOk(y, t, y.pcs[t])
    requires l in y.holders && Inside(y, l) == {} && y.holders[l] == None
    ensures PcOk(Entered(y, t, l), u, Entered(y, t, l).pcs[u])
  {
    if u != t {
      PcKept(y, Entered(y, t, l), u, y.pcs[u]);
    }
  }

  lemma EnteredLock(y: Sync, t: Tid, l: nat, k: nat)
    requires t in y.pcs && t < y.nextTid && LockOk(y, k) && LockOk(y, l)
    requires Cnt(y, OfLock(l)).value == 1 && Inside(y, l) == {} && y.holders[l] == None && !WithinAt(y.pcs[t], k)
    ensures LockOk(Entered(y, t, l), k)
  {
    if k != l {
      forall u | u in Inside(y, k)
        ensures IsInside(Entered(y, t, l), u, k)
      {
        assert IsInside(y, u, k);
      }
    }
  }

  lemma EnteredWaiter(y: Sync, t: Tid, l: nat, w: nat)
    requires t in y.pcs && WaiterOk(y, w) && (y.pcs[t] == Acquiring(l) || y.pcs[t] == TryAcquiring(l))
    ensures WaiterOk(Entered(y, t, l), w)
  {
    WaiterKept(y, Entered(y, t, l), w);
  }

  // ---------- A lock's semaphore is upped ----------

  function Left(y: Sync, t: Tid, l: nat, pc: Pc): Sync {
    var d := Upped(y, OfLock(l));
    MoveTo(d.(inside := d.inside[l := Inside(d, l) - {t}]), t, pc)
  }

  lemma LeftCore(y: Sync, t: Tid, l: nat)
    requires Core(y) && t in y.pcs && (y.pcs[t].Released? || y.pcs[t].WaitReleased?) && y.pcs[t].l == l
    ensures Core(Left(y, t, l, AfterUp(y.pcs[t])))
  {
    var pc := AfterUp(y.pcs[t]);
    var y' := Left(y, t, l, pc);
    assert PcOk(y, t, y.pcs[t]) && WithinAt(y.pcs[t], l) && Within(y, t, l);
    assert LockOk(y, l);
    hide PcOk, LockOk, CondOk, WaiterOk;
    forall u | u in y'.pcs
      ensures PcOk(y', u, y'.pcs[u])
    {
      LeftPc(y, t, l, u);
    }
    forall k | k in y'.holders
      ensures LockOk(y', k)
    {
      LeftLock(y, t, l, k);
    }
    forall c | c in y'.condLocks
      ensures CondOk(y', c)
    {
      CondKept(y, y', c);
    }
    forall w | 0 <= w < y'.nextWaiter
      ensures WaiterOk(y', w)
    {
      LeftWaiter(y, t, l, w);
    }
  }

  lemma LeftPc(y: Sync, t: Tid, l: nat, u: Tid)
    requires t in y.pcs && u in y.pcs && PcOk(y, u, y.pcs[u]) && PcOk(y, t, y.pcs[t])
    requires (y.pcs[t].Released? || y.pcs[t].WaitReleased?) && y.pcs[t].l == l && Within(y, t, l)
    ensures var y' := Left(y, t, l, AfterUp(y.pcs[t])); PcOk(y', u, y'.pcs[u])
  {
    var y' := Left(y, t, l, AfterUp(y.pcs[t]));
    if u != t {
      PcKept(y, y', u, y.pcs[u]);
    } else if y.pcs[t].WaitReleased? {
      var w, c := y.pcs[t].w, y.pcs[t].c;
      assert AwaitsAt(y.pcs[t], w) && CondAt(y.pcs[t], c, l);
      assert WaitsFor(y', t, w) && CameTo(y', w, c) && Outside(y', t, l);
    }
  }

  lemma LeftLock(y: Sync, t: Tid, l: nat, k: nat)
    requires t in y.pcs && LockOk(y, k) && LockOk(y, l) && Within(y, t, l)
    requires (y.pcs[t].Released? || y.pcs[t].WaitReleased?) && y.pcs[t].l == l
    ensures LockOk(Left(y, t, l, AfterUp(y.pcs[t])), k)
  {
    if k != l {
      forall u | u in Inside(y, k)
        ensures IsInside(Left(y, t, l, AfterUp(y.pcs[t])), u, k)
      {
        assert IsInside(y, u, k);
      }
    }
  }

  lemma LeftWaiter(y: Sync, t: Tid, l: nat, w: nat)
    requires t in y.pcs && WaiterOk(y, w) && (y.pcs[t].Released? || y.pcs[t].WaitReleased?)
    ensures WaiterOk(Left(y, t, l, AfterUp(y.pcs[t])), w)
  {
    WaiterKept(y, Left(y, t, l, AfterUp(y.pcs[t])), w);
  }

  // ---------- The holder field ----------

  function HeldBy(y: Sync, l: nat, holder: Option<Tid>, t: Tid, pc: Pc): Sync {
    MoveTo(y.(holders := y.holders[l := holder]), t, pc)
  }

  lemma HolderSet(y: Sync, t: Tid, l: nat)
    requires Core(y) && t in y.pcs && y.pcs[t] == Acquired(l)
    ensures Core(HeldBy(y, l, Some(t), t, User))
  {
    var y' := HeldBy(y, l, Some(t), t, User);
    assert PcOk(y, t, y.pcs[t]) && WithinAt(y.pcs[t], l) && Within(y, t, l);
    hide PcOk, LockOk, CondOk, WaiterOk;
    forall u | u in y'.pcs
      ensures PcOk(y', u, y'.pcs[u])
    {
      HolderPc(y, t, l, Some(t), User, u);
    }
    forall k | k in y'.holders
      ensures LockOk(y', k)
    {
      HolderLock(y, t, l, Some(t), User, k);
    }
    forall c | c in y'.condLocks
      ensures CondOk(y', c)
    {
      HolderCond(y, t, l, Some(t), User, c);
    }
    forall w | 0 <= w < y'.nextWaiter
      ensures WaiterOk(y', w)
    {
      HolderWaiter(y, t, l, Some(t), User, w);
    }
  }

  function AfterClear(pc: Pc): Pc {
    match pc
    case Releasing(l) => Released(l)
    case WaitReleasing(c, l, w) => WaitReleased(c, l, w)
    case _ => User
  }

  lemma HolderCleared(y: Sync, t: Tid, l: nat)
    requires Core(y) && t in y.pcs && (y.pcs[t].Releasing? || y.pcs[t].WaitReleasing?) && y.pcs[t].l == l
    ensures Core(HeldBy(y, l, None, t, AfterClear(y.pcs[t])))
  {
    var pc := AfterClear(y.pcs[t]);
    var y' := HeldBy(y, l, None, t, pc);
    assert PcOk(y, t, y.pcs[t]) && HoldsAt(y.pcs[t], l) && Holds(y, t, l);
    assert LockOk(y, l);
    hide PcOk, LockOk, CondOk, WaiterOk;
    forall u | u in y'.pcs
      ensures PcOk(y', u, y'.pcs[u])
    {
      HolderPc(y, t, l, None, pc, u);
    }
    forall k | k in y'.holders
      ensures LockOk(y', k)
    {
      HolderLock(y, t, l, None, pc, k);
    }
    forall c | c in y'.condLocks
      ensures CondOk(y', c)
    {
      HolderCond(y, t, l, None, pc, c);
    }
    forall w | 0 <= w < y'.nextWaiter
      ensures WaiterOk(y', w)
    {
      HolderWaiter(y, t, l, None, pc, w);
    }
  }

  /** The two ways the holder field of `l` changes, both by the one thread inside. */
  ghost predicate HolderChange(y: Sync, t: Tid, l: nat, holder: Option<Tid>, pc: Pc) {
    && t in y.pcs && l in y.holders
    && ((y.pcs[t] == Acquired(l) && Within(y, t, l) && holder == Some(t) && pc == User)
        || ((y.pcs[t].Releasing? || y.pcs[t].WaitReleasing?) && y.pcs[t].l == l && Holds(y, t, l) && holder == None
             && pc == AfterClear(y.pcs[t])))
  }

  lemma HolderPc(y: Sync, t: Tid, l: nat, holder: Option<Tid>, pc: Pc, u: Tid)
    requires HolderChange(y, t, l, holder, pc) && LockOk(y, l) && u in y.pcs && PcOk(y, u, y.pcs[u])
    requires PcOk(y, t, y.pcs[t])
    ensures PcOk(HeldBy(y, l, holder, t, pc), u, HeldBy(y, l, holder, t, pc).pcs[u])
  {
    var y' := HeldBy(y, l, holder, t, pc);
    if u != t {
      PcKept(y, y', u, y.pcs[u]);
    } else if y.pcs[t].WaitReleasing? {
      var w, c := y.pcs[t].w, y.pcs[t].c;
      assert AwaitsAt(y.pcs[t], w) && CondAt(y.pcs[t], c, l);
      assert WaitsFor(y', t, w) && CameTo(y', w, c) && Within(y', t, l);
    }
  }

  lemma HolderLock(y: Sync, t: Tid, l: nat, holder: Option<Tid>, pc: Pc, k: nat)
    requires HolderChange(y, t, l, holder, pc) && LockOk(y, l) && LockOk(y, k)
    ensures LockOk(HeldBy(y, l, holder, t, pc), k)
  {
    forall u | u in Inside(y, k)
      ensures IsInside(HeldBy(y, l, holder, t, pc), u, k)
    {
      assert IsInside(y, u, k);
    }
  }

  lemma HolderCond(y: Sync, t: Tid, l: nat, holder: Option<Tid>, pc: Pc, c: nat)
    requires CondOk(y, c) && l in y.holders
    ensures CondOk(HeldBy(y, l, holder, t, pc), c)
  {
    CondKept(y, HeldBy(y, l, holder, t, pc), c);
  }

  lemma HolderWaiter(y: Sync, t: Tid, l: nat, holder: Option<Tid>, pc: Pc, w: nat)
    requires HolderChange(y, t, l, holder, pc) && WaiterOk(y, w)
    ensures WaiterOk(HeldBy(y, l, holder, t, pc), w)
  {
    WaiterKept(y, HeldBy(y, l, holder, t, pc), w);
  }

  // ---------- A waiter comes through, and a waiter is woken ----------

  function CameThrough(y: Sync, t: Tid, w: nat, l: nat): Sync {
    MoveTo(Downed(y, Private(w)), t, Acquiring(l))
  }

  /** Only a waiter that has been signalled comes through. */
  lemma CameThroughCore(y: Sync, t: Tid)
    requires Core(y) && t in y.pcs && y.pcs[t].Waiting?
    ensures Core(CameThrough(y, t, y.pcs[t].w, y.pcs[t].l))
  {
    hide LockOk, CondOk, WaiterOk;
    var l, w := y.pcs[t].l, y.pcs[t].w;
    var y' := CameThrough(y, t, w, l);
    assert PcOk(y, t, y.pcs[t]) && AwaitsAt(y.pcs[t], w) && WaitsFor(y, t, w);
    hide PcOk;
    forall u | u in y'.pcs
      ensures PcOk(y', u, y'.pcs[u])
    {
      CameThroughPc(y, t, u);
    }
    forall k | k in y'.holders
      ensures LockOk(y', k)
    {
      PrivateLock(y, t, w, Downed(y, Private(w)).counts[Private(w)], Acquiring(l), k);
    }
    forall c | c in y'.condLocks
      ensures CondOk(y', c)
    {
      CondKept(y, y', c);
    }
    forall v | 0 <= v < y'.nextWaiter
      ensures WaiterOk(y', v)
    {
      CameThroughWaiter(y, t, v);
    }
  }

  lemma CameThroughPc(y: Sync, t: Tid, u: Tid)
    requires t in y.pcs && y.pcs[t].Waiting? && u in y.pcs && PcOk(y, u, y.pcs[u]) && PcOk(y, t, y.pcs[t])
    ensures var y' := CameThrough(y, t, y.pcs[t].w, y.pcs[t].l); PcOk(y', u, y'.pcs[u])
  {
    var y' := CameThrough(y, t, y.pcs[t].w, y.pcs[t].l);
    assert AwaitsAt(y.pcs[t], y.pcs[t].w) && OutsideAt(y.pcs[t], y.pcs[t].l);
    if u != t {
      PcKept(y, y', u, y.pcs[u]);
    }
  }

  /** Moving between positions outside every lock, with a private semaphore changing. */
  lemma PrivateLock(y: Sync, t: Tid, w: nat, x: Counts, pc: Pc, k: nat)
    requires t in y.pcs && LockOk(y, k) && WithinAt(y.pcs[t], k) == WithinAt(pc, k)
    ensures LockOk(MoveTo(y.(counts := y.counts[Private(w) := x]), t, pc), k)
  {
    forall u | u in Inside(y, k)
      ensures IsInside(MoveTo(y.(counts := y.counts[Private(w) := x]), t, pc), u, k)
    {
      assert IsInside(y, u, k);
    }
  }

  lemma CameThroughWaiter(y: Sync, t: Tid, v: nat)
    requires t in y.pcs && y.pcs[t].Waiting? && WaiterOk(y, v) && WaitsFor(y, t, y.pcs[t].w)
    ensures WaiterOk(CameThrough(y, t, y.pcs[t].w, y.pcs[t].l), v)
  {
    var y' := CameThrough(y, t, y.pcs[t].w, y.pcs[t].l);
    if v != y.pcs[t].w {
      WaiterKept(y, y', v);
    } else {
      assert forall l :: Pending(y, v, l) ==> Pending(y', v, l);
    }
  }

  function Woke(y: Sync, t: Tid): Sync
    requires t in y.pcs && y.pcs[t].Waking?
  {
    MoveTo(Upped(y, Private(y.pcs[t].w)), t, AfterUp(y.pcs[t]))
  }

  /** The semaphore of a popped waiter is upped: its signal has been sent, for the first and only time. */
  lemma WokeCore(y: Sync, t: Tid)
    requires Core(y) && t in y.pcs && y.pcs[t].Waking?
    ensures Core(Woke(y, t))
  {
    hide LockOk, CondOk, WaiterOk;
    var w := y.pcs[t].w;
    var y' := Woke(y, t);
    assert PcOk(y, t, y.pcs[t]) && WakesAt(y.pcs[t], w) && Popped(y, y.pcs[t].c, w);
    hide PcOk;
    forall u | u in y'.pcs
      ensures PcOk(y', u, y'.pcs[u])
    {
      WokePc(y, t, u);
    }
    forall k | k in y'.holders
      ensures LockOk(y', k)
    {
      PrivateLock(y, t, w, Upped(y, Private(w)).counts[Private(w)], AfterUp(y.pcs[t]), k);
    }
    forall c | c in y'.condLocks
      ensures CondOk(y', c)
    {
      CondKept(y, y', c);
    }
    forall v | 0 <= v < y'.nextWaiter
      ensures WaiterOk(y', v)
    {
      WokeWaiter(y, t, v);
    }
  }

  lemma WokePc(y: Sync, t: Tid, u: Tid)
    requires t in y.pcs && y.pcs[t].Waking? && u in y.pcs && PcOk(y, u, y.pcs[u]) && PcOk(y, t, y.pcs[t])
    ensures PcOk(Woke(y, t), u, Woke(y, t).pcs[u])
  {
    var y', l, c, w := Woke(y, t), y.pcs[t].l, y.pcs[t].c, y.pcs[t].w;
    assert HoldsAt(y.pcs[t], l) && CondAt(y.pcs[t], c, l) && WakesAt(y.pcs[t], w);
    if u != t {
      if y.pcs[u].Waking? {
        // two threads waking the same waiter would both hold its condition's lock
        assert WakesAt(y.pcs[u], y.pcs[u].w) && HoldsAt(y.pcs[u], y.pcs[u].l)
          && CondAt(y.pcs[u], y.pcs[u].c, y.pcs[u].l);
      }
      PcKept(y, y', u, y.pcs[u]);
    }
  }

  lemma WokeWaiter(y: Sync, t: Tid, v: nat)
    requires t in y.pcs && y.pcs[t].Waking? && WaiterOk(y, v) && Popped(y, y.pcs[t].c, y.pcs[t].w)
    ensures WaiterOk(Woke(y, t), v)
  {
    if v != y.pcs[t].w {
      WaiterKept(y, Woke(y, t), v);
    }
  }

  // ---------- Joining a queue, and being popped ----------

  function Enlisted(y: Sync, t: Tid, c: nat, l: nat): Sync {
    var w := y.nextWaiter;
    MoveTo(
      y.(counts := y.counts[Private(w) := Counts(0, 0, 0, 0)],
         queues := y.queues[c := QueueOf(y, c) + [w]],
         nextWaiter := w + 1,
         waiterOf := y.waiterOf[w := t],
         origin := y.origin[w := c]),
      t, WaitReleasing(c, l, w))
  }

  lemma EnlistedCore(y: Sync, t: Tid, c: nat, l: nat)
    requires Core(y) && t in y.pcs && y.pcs[t] == Enlisting(c, l)
    ensures Core(Enlisted(y, t, c, l))
  {
    hide LockOk, CondOk, WaiterOk;
    var y' := Enlisted(y, t, c, l);
    assert PcOk(y, t, y.pcs[t]) && CondAt(y.pcs[t], c, l) && HoldsAt(y.pcs[t], l);
    hide PcOk;
    forall u | u in y'.pcs
      ensures PcOk(y', u, y'.pcs[u])
    {
      EnlistedPc(y, t, c, l, u);
    }
    forall k | k in y'.holders
      ensures LockOk(y', k)
    {
      EnlistedLock(y, t, c, l, k);
    }
    forall d | d in y'.condLocks
      ensures CondOk(y', d)
    {
      EnlistedCond(y, t, c, l, d);
    }
    forall w | 0 <= w < y'.nextWaiter
      ensures WaiterOk(y', w)
    {
      EnlistedWaiter(y, t, c, l, w);
    }
  }

  lemma EnlistedPc(y: Sync, t: Tid, c: nat, l: nat, u: Tid)
    requires t in y.pcs && y.pcs[t] == Enlisting(c, l) && u in y.pcs && PcOk(y, u, y.pcs[u]) && PcOk(y, t, y.pcs[t])
    ensures PcOk(Enlisted(y, t, c, l), u, Enlisted(y, t, c, l).pcs[u])
  {
    var y' := Enlisted(y, t, c, l);
    if u != t {
      PcKept(y, y', u, y.pcs[u]);
    } else {
      assert HoldsAt(y.pcs[t], l) && CondAt(y.pcs[t], c, l);
    }
  }

  lemma EnlistedLock(y: Sync, t: Tid, c: nat, l: nat, k: nat)
    requires t in y.pcs && y.pcs[t] == Enlisting(c, l) && LockOk(y, k)
    ensures LockOk(Enlisted(y, t, c, l), k)
  {
    forall u | u in Inside(y, k)
      ensures IsInside(Enlisted(y, t, c, l), u, k)
    {
      assert IsInside(y, u, k);
    }
  }

  lemma EnlistedCond(y: Sync, t: Tid, c: nat, l: nat, d: nat)
    requires CondOk(y, d)
    ensures CondOk(Enlisted(y, t, c, l), d)
  {
    var y' := Enlisted(y, t, c, l);
    forall w | w in QueueOf(y', d)
      ensures CameTo(y', w, d)
    {
      assert w in QueueOf(y, d) ==> CameTo(y, w, d);
    }
    var q := QueueOf(y, d);
    forall i | 0 <= i < |q|
      ensures q[i] < y.nextWaiter
    {
      assert CameTo(y, q[i], d);
    }
  }

  lemma EnlistedWaiter(y: Sync, t: Tid, c: nat, l: nat, w: nat)
    requires t in y.pcs && y.pcs[t] == Enlisting(c, l) && c in y.condLocks && w <= y.nextWaiter
    requires w < y.nextWaiter ==> WaiterOk(y, w)
    ensures WaiterOk(Enlisted(y, t, c, l), w)
  {
    if w < y.nextWaiter {
      WaiterKept(y, Enlisted(y, t, c, l), w);
    }
  }

  function Popping(y: Sync, t: Tid, c: nat, l: nat, all: bool): Sync
    requires QueueOf(y, c) != []
  {
    MoveTo(y.(queues := y.queues[c := QueueOf(y, c)[1..]]), t, Waking(c, l, QueueOf(y, c)[0], all))
  }

  lemma PoppingCore(y: Sync, t: Tid, c: nat, l: nat, all: bool)
    requires Core(y) && t in y.pcs && y.pcs[t] == Signalling(c, l, all) && QueueOf(y, c) != []
    ensures Core(Popping(y, t, c, l, all))
  {
    hide LockOk, WaiterOk;
    var y', w := Popping(y, t, c, l, all), QueueOf(y, c)[0];
    assert PcOk(y, t, y.pcs[t]) && HoldsAt(y.pcs[t], l) && CondAt(y.pcs[t], c, l);
    assert CondOk(y, c) && w in QueueOf(y, c) && CameTo(y, w, c);
    hide PcOk, CondOk;
    forall u | u in y'.pcs
      ensures PcOk(y', u, y'.pcs[u])
    {
      PoppingPc(y, t, c, l, all, u);
    }
    forall k | k in y'.holders
      ensures LockOk(y', k)
    {
      PoppingLock(y, t, c, l, all, k);
    }
    forall d | d in y'.condLocks
      ensures CondOk(y', d)
    {
      PoppingCond(y, t, c, l, all, d);
    }
    forall v | 0 <= v < y'.nextWaiter
      ensures WaiterOk(y', v)
    {
      PoppingWaiter(y, t, c, l, all, v);
    }
  }

  lemma PoppingPc(y: Sync, t: Tid, c: nat, l: nat, all: bool, u: Tid)
    requires t in y.pcs && y.pcs[t] == Signalling(c, l, all) && QueueOf(y, c) != [] && CondOk(y, c)
    requires u in y.pcs && PcOk(y, u, y.pcs[u]) && PcOk(y, t, y.pcs[t]) && WaiterOk(y, QueueOf(y, c)[0])
    ensures PcOk(Popping(y, t, c, l, all), u, Popping(y, t, c, l, all).pcs[u])
  {
    var y', w := Popping(y, t, c, l, all), QueueOf(y, c)[0];
    assert HoldsAt(y.pcs[t], l) && CondAt(y.pcs[t], c, l);
    if u != t {
      PcKept(y, y', u, y.pcs[u]);
    } else {
      assert w in QueueOf(y, c) && CameTo(y, w, c);
      assert w !in QueueOf(y', c);
    }
  }

  lemma PoppingLock(y: Sync, t: Tid, c: nat, l: nat, all: bool, k: nat)
    requires t in y.pcs && y.pcs[t] == Signalling(c, l, all) && QueueOf(y, c) != [] && LockOk(y, k)
    ensures LockOk(Popping(y, t, c, l, all), k)
  {
    forall u | u in Inside(y, k)
      ensures IsInside(Popping(y, t, c, l, all), u, k)
    {
      assert IsInside(y, u, k);
    }
  }

  lemma PoppingCond(y: Sync, t: Tid, c: nat, l: nat, all: bool, d: nat)
    requires QueueOf(y, c) != [] && CondOk(y, d)
    ensures CondOk(Popping(y, t, c, l, all), d)
  {
    var y' := Popping(y, t, c, l, all);
    forall w | w in QueueOf(y', d)
      ensures CameTo(y', w, d)
    {
      assert w in QueueOf(y, d) && CameTo(y, w, d);
    }
  }

  lemma PoppingWaiter(y: Sync, t: Tid, c: nat, l: nat, all: bool, v: nat)
    requires t in y.pcs && y.pcs[t] == Signalling(c, l, all) && QueueOf(y, c) != [] && CondOk(y, c)
    requires Holds(y, t, l) && y.condLocks[c] == l && WaiterOk(y, v)
    ensures WaiterOk(Popping(y, t, c, l, all), v)
  {
    var y', w := Popping(y, t, c, l, all), QueueOf(y, c)[0];
    assert QueueOf(y, c) == [w] + QueueOf(y', c);
    if v != w {
      WaiterKept(y, y', v);
    } else {
      assert v in QueueOf(y, c) && CameTo(y, v, c);
      assert WakesAt(y'.pcs[t], v);
    }
  }

  // ---------- Threads come and go ----------

  lemma SpawnedCore(y: Sync)
    requires Core(y)
    ensures Core(MoveTo(y.(nextTid := y.nextTid + 1), y.nextTid, User))
  {
    hide LockOk, CondOk, WaiterOk;
    var y' := MoveTo(y.(nextTid := y.nextTid + 1), y.nextTid, User);
    assert y.nextTid !in y.pcs by {
      assert y.nextTid in y.pcs ==> PcOk(y, y.nextTid, y.pcs[y.nextTid]);
    }
    forall u | u in y'.pcs
      ensures PcOk(y', u, y'.pcs[u])
    {
      if u in y.pcs {
        PcKept(y, y', u, y.pcs[u]);
      }
    }
    hide PcOk;
    forall k | k in y'.holders
      ensures LockOk(y', k)
    {
      SpawnedLock(y, k);
    }
    forall c | c in y'.condLocks
      ensures CondOk(y', c)
    {
      CondKept(y, y', c);
    }
    forall w | 0 <= w < y'.nextWaiter
      ensures WaiterOk(y', w)
    {
      SpawnedWaiter(y, w);
    }
  }

  lemma SpawnedLock(y: Sync, k: nat)
    requires LockOk(y, k) && y.nextTid !in y.pcs
    ensures LockOk(MoveTo(y.(nextTid := y.nextTid + 1), y.nextTid, User), k)
  {
    forall u | u in Inside(y, k)
      ensures IsInside(MoveTo(y.(nextTid := y.nextTid + 1), y.nextTid, User), u, k)
    {
      assert IsInside(y, u, k);
    }
  }

  lemma SpawnedWaiter(y: Sync, w: nat)
    requires WaiterOk(y, w) && y.nextTid !in y.pcs
    ensures WaiterOk(MoveTo(y.(nextTid := y.nextTid + 1), y.nextTid, User), w)
  {
    WaiterKept(y, MoveTo(y.(nextTid := y.nextTid + 1), y.nextTid, User), w);
  }

  lemma GoneCore(y: Sync, t: Tid)
    requires Core(y) && t in y.pcs && y.pcs[t] == User
    ensures Core(y.(pcs := y.pcs - {t}))
  {
    hide PcOk, LockOk, CondOk, WaiterOk;
    var y' := y.(pcs := y.pcs - {t});
    forall u | u in y'.pcs
      ensures PcOk(y', u, y'.pcs[u])
    {
      PcKept(y, y', u, y.pcs[u]);
    }
    forall k | k in y'.holders
      ensures LockOk(y', k)
    {
      GoneLock(y, t, k);
    }
    forall c | c in y'.condLocks
      ensures CondOk(y', c)
    {
      CondKept(y, y', c);
    }
    forall w | 0 <= w < y'.nextWaiter
      ensures WaiterOk(y', w)
    {
      GoneWaiter(y, t, w);
    }
  }

  lemma GoneLock(y: Sync, t: Tid, k: nat)
    requires LockOk(y, k)
    ensures LockOk(y.(pcs := y.pcs - {t}), k)
  {
    forall u | u in Inside(y, k)
      ensures IsInside(y.(pcs := y.pcs - {t}), u, k)
    {
      assert IsInside(y, u, k);
    }
  }

  lemma GoneWaiter(y: Sync, t: Tid, w: nat)
    requires WaiterOk(y, w) && t in y.pcs && y.pcs[t] == User
    ensures WaiterOk(y.(pcs := y.pcs - {t}), w)
  {
    WaiterKept(y, y.(pcs := y.pcs - {t}), w);
  }
}
