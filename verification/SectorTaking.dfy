/**
 Taking free sectors for a growing file, stated on values: the sectors' contents and
 the free map before and after.
 */
module SectorTaking {

  import opened Sequences
  import opened Division
  import opened Blocks
  import opened Words
  import opened InodeLayout

  /** Sectors only ever become used, and those that were used keep their contents, except `changed`. */
  ghost predicate Grew(contents0: seq<Block>, used0: seq<bool>, contents: seq<Block>, used: seq<bool>,
                       changed: set<nat>) {
    && |contents0| == |used0| == |contents| == |used|
    && (forall s :: 0 <= s < |used0| && used0[s] ==> used[s])
    && (forall s :: 0 <= s < |used0| && used0[s] && s !in changed ==> contents[s] == contents0[s])
  }

  /** `s` was free before and is now taken and zero-filled. */
  ghost predicate Taken(used0: seq<bool>, contents: seq<Block>, used: seq<bool>, s: nat) {
    && 0 < s < |contents| == |used| == |used0|
    && !used0[s] && used[s] && contents[s] == ZEROS
  }

  ghost predicate TakenRun(used0: seq<bool>, contents: seq<Block>, used: seq<bool>, run: seq<nat>) {
    NoDup(run) && forall i :: 0 <= i < |run| ==> Taken(used0, contents, used, run[i])
  }

  lemma TakenEarlier(u0: seq<bool>, u1: seq<bool>, c: seq<Block>, u: seq<bool>, run: seq<nat>)
    requires TakenRun(u1, c, u, run)
    requires |u0| == |u1| && forall s :: 0 <= s < |u0| && u0[s] ==> u1[s]
    ensures TakenRun(u0, c, u, run)
  {
    forall i | 0 <= i < |run|
      ensures Taken(u0, c, u, run[i])
    {
      assert Taken(u1, c, u, run[i]);
    }
  }

  /** Two runs taken one after the other make one run. */
  lemma TakenAppend(u0: seq<bool>, c1: seq<Block>, u1: seq<bool>, c2: seq<Block>, u2: seq<bool>, run1: seq<nat>,
                    run2: seq<nat>, changed: set<nat>)
    requires TakenRun(u0, c1, u1, run1) && Grew(c1, u1, c2, u2, changed) && TakenRun(u1, c2, u2, run2)
    requires |u0| == |u1| && forall s :: 0 <= s < |u0| && u0[s] ==> u1[s]
    requires forall s :: s in changed && s < |u0| ==> u0[s]
    ensures TakenRun(u0, c2, u2, run1 + run2)
  {
    forall i | 0 <= i < |run1|
      ensures Taken(u0, c2, u2, run1[i])
    {
      assert Taken(u0, c1, u1, run1[i]);
    }
    forall i | 0 <= i < |run2|
      ensures Taken(u0, c2, u2, run2[i])
    {
      assert Taken(u1, c2, u2, run2[i]);
    }
    forall i, j | 0 <= i < |run1| && 0 <= j < |run2|
      ensures run1[i] != run2[j]
    {
      assert Taken(u0, c1, u1, run1[i]) && Taken(u1, c2, u2, run2[j]);
    }
  }

  // ---------- How many sectors can be had ----------

  ghost function FreeSectors(used: seq<bool>): set<nat> {
    set s: nat | s < |used| && !used[s]
  }

  /**
   What allocation depends on: how many sectors are free, how many tries there have been,
   whether the free map has a file, and at which tries that file can be written.
   */
  datatype Supply = Supply(free: nat, tries: nat, logged: bool, mapOk: nat -> bool)

  /** The next `n` allocations succeed. */
  ghost predicate Enough(b: Supply, n: nat) {
    n <= b.free && (b.logged ==> forall k :: b.tries <= k < b.tries + n ==> b.mapOk(k))
  }

  /** What is left after up to `n` allocations, which end with the first that fails. */
  function Spend(b: Supply, n: nat): Supply
    decreases n
  {
    if n == 0 then b
    else if b.free == 0 || (b.logged && !b.mapOk(b.tries)) then b.(tries := b.tries + 1)
    else Spend(b.(free := b.free - 1, tries := b.tries + 1), n - 1)
  }

  lemma EnoughForOne(b: Supply)
    ensures Enough(b, 1) <==> b.free > 0 && (b.logged ==> b.mapOk(b.tries))
  {
    assert forall k :: b.mapOk(k) || k != b.tries || !b.mapOk(b.tries);
  }

  lemma EnoughUnlogged(b: Supply, n: nat)
    requires !b.logged
    ensures Enough(b, n) <==> n <= b.free
  {
  }

  lemma EnoughFirst(b: Supply, n: nat)
    requires n > 0
    ensures Enough(b, n) <==>
      b.free > 0 && (b.logged ==> b.mapOk(b.tries)) && Enough(b.(free := b.free - 1, tries := b.tries + 1), n - 1)
  {
    if b.free > 0 && (b.logged ==> b.mapOk(b.tries)) && Enough(b.(free := b.free - 1, tries := b.tries + 1), n - 1) {
      assert b.logged ==> forall k :: b.tries <= k < b.tries + n ==> k == b.tries || b.mapOk(k);
    }
  }

  /** When all succeed, all are taken. */
  lemma {:induction false} SpendAll(b: Supply, n: nat)
    requires Enough(b, n)
    ensures Spend(b, n) == b.(free := b.free - n, tries := b.tries + n)
    decreases n
  {
    if n > 0 {
      EnoughFirst(b, n);
      SpendAll(b.(free := b.free - 1, tries := b.tries + 1), n - 1);
    }
  }

  /**
   `n` allocations and then `m` more: all succeed exactly if `n + m` do, and if the first
   `n` do not, they are all there is.
   */
  lemma {:induction false} TakeInTwo(b: Supply, n: nat, m: nat)
    ensures Enough(b, n + m) <==> Enough(b, n) && Enough(Spend(b, n), m)
    ensures Spend(b, n + m) == if Enough(b, n) then Spend(Spend(b, n), m) else Spend(b, n)
    decreases n
  {
    if n > 0 {
      EnoughFirst(b, n);
      EnoughFirst(b, n + m);
      if b.free > 0 && (b.logged ==> b.mapOk(b.tries)) {
        TakeInTwo(b.(free := b.free - 1, tries := b.tries + 1), n - 1, m);
      }
    } else {
      NothingTaken(b);
    }
  }

  lemma SpendBoth(b: Supply, n: nat, m: nat)
    requires !b.logged && n + m <= b.free
    ensures Spend(Spend(b, n), m) == b.(free := b.free - n - m, tries := b.tries + n + m)
  {
    EnoughUnlogged(b, n + m);
    TakeInTwo(b, n, m);
    SpendAll(b, n + m);
  }

  lemma NothingTaken(b: Supply)
    ensures Enough(b, 0) && Spend(b, 0) == b
  {
  }

  /** In a row of `n` allocations, the one after the first `i` decides whether `i + 1` succeed. */
  lemma TakeNext(b: Supply, i: nat, n: nat)
    requires Enough(b, i) && i < n
    ensures Enough(b, i + 1) <==> Enough(Spend(b, i), 1)
    ensures Enough(b, i + 1) ==> Spend(b, i + 1) == Spend(Spend(b, i), 1)
    ensures !Enough(b, i + 1) ==> !Enough(b, n) && Spend(b, n) == Spend(Spend(b, i), 1)
  {
    TakeInTwo(b, i, 1);
    TakeInTwo(b, i + 1, n - (i + 1));
  }

  lemma TookOne(used: seq<bool>, s: nat)
    requires s < |used| && !used[s]
    ensures |FreeSectors(used[s := true])| + 1 == |FreeSectors(used)|
  {
    assert FreeSectors(used) == FreeSectors(used[s := true]) + {s};
  }

  lemma GaveOne(used: seq<bool>, s: nat)
    requires s < |used| && used[s]
    ensures |FreeSectors(used[s := false])| == |FreeSectors(used)| + 1
  {
    assert FreeSectors(used[s := false]) == FreeSectors(used) + {s};
  }

  /** A device of which only the first two sectors are in use. */
  lemma {:induction false} FreshlyFree(used: seq<bool>)
    requires |used| >= 2 && forall i :: 0 <= i < |used| ==> used[i] == (i < 2)
    ensures |FreeSectors(used)| == |used| - 2
  {
    if |used| == 2 {
      assert FreeSectors(used) == {};
    } else {
      var last := |used| - 1;
      FreshlyFree(used[..last]);
      assert FreeSectors(used) == FreeSectors(used[..last]) + {last};
    }
  }

  /**
   The sectors it takes to grow a file from `cur` to `new_` blocks: its data, and perhaps a
   second-level index block.
   */
  function Needed(cur: nat, new_: nat): nat {
    if new_ <= cur then 0 else new_ - cur + if cur <= SINGLE_LIMIT < new_ then 1 else 0
  }

  /** The sectors that an attempt to grow a file from `from` to `to` bytes asks for. */
  function Cost(from: nat, to: nat): nat {
    if to <= MAX_INODE_SIZE then Needed(BytesToSectors(from), BytesToSectors(to)) else 0
  }

  /** What is left after an attempt to make a file: on failure its inode's sector is given back. */
  ghost function AfterMake(b: Supply, length: nat): Supply {
    var left := Spend(Spend(Spend(b, 1), 2), Cost(0, length));
    if !Enough(b, 1) then Spend(b, 1)
    else if Makeable(b, length) then left
    else left.(free := left.free + 1)
  }

  /** There are sectors for an inode, two index blocks and `length` bytes. */
  ghost predicate Makeable(b: Supply, length: nat) {
    length <= MAX_INODE_SIZE && Enough(b, 3 + Cost(0, length))
  }

  /** A file of `from` bytes can be given the sectors for `to` bytes. */
  ghost predicate Extendable(b: Supply, from: nat, to: nat) {
    var cur, new_ := BytesToSectors(from), BytesToSectors(to);
    cur == new_ || (cur < new_ && to <= MAX_INODE_SIZE && Enough(b, Needed(cur, new_)))
  }

  /** Of those, the ones reached without the doubly indirect block. */
  function NeededSingly(cur: nat, new_: nat): nat {
    if cur < SINGLE_LIMIT && cur < new_ then Min(new_, SINGLE_LIMIT) - cur else 0
  }

  /** The first word of an index block is what it was, or a sector number. */
  ghost predicate IndexKept(c0: seq<Block>, c: seq<Block>, s: nat) {
    IndexWord(c, s, 0) == IndexWord(c0, s, 0) || IndexWord(c, s, 0) < |c|
  }

  lemma ZeroIndex(c: seq<Block>, s: nat)
    requires s < |c| && c[s] == ZEROS
    ensures forall i :: 0 <= i < INDIRECT_BLOCK_PTRS ==> IndexWord(c, s, i) == 0
  {
    ZerosAreZeroWords();
  }

  lemma FilledInRange(u: seq<bool>, c: seq<Block>, used: seq<bool>, s: nat, run: seq<nat>)
    requires |c| > 0 && TakenRun(u, c, used, run)
    requires forall i :: 0 <= i < INDIRECT_BLOCK_PTRS ==> IndexWord(c, s, i) == if i < |run| then run[i] else 0
    ensures WordsInRange(c, s)
  {
    assert forall i :: 0 <= i < |run| ==> Taken(u, c, used, run[i]);
  }

  /** The first `n` blocks are where they were, and the index blocks hold only sector numbers. */
  ghost predicate KeptBlocks(c0: seq<Block>, c: seq<Block>, d: DiskInode, r: DiskInode, n: nat) {
    && (forall k :: 0 <= k < n ==> PtrOf(c, r, k) == PtrOf(c0, d, k))
    && (PointersInRange(c0, d.indirect, d.doubly) ==> PointersInRange(c, r.indirect, r.doubly))
    && (n > SINGLE_LIMIT ==> IndexWord(c, r.doubly, 0) == IndexWord(c0, d.doubly, 0))
  }

  /** Blocks `cur` up to `new_` are the sectors of `run`, all newly taken and zero. */
  ghost predicate GainedBlocks(u0: seq<bool>, c: seq<Block>, u: seq<bool>, r: DiskInode, cur: nat, new_: nat,
                               run: seq<nat>) {
    && |run| == new_ - cur
    && TakenRun(u0, c, u, run)
    && (forall k :: cur <= k < new_ ==> PtrOf(c, r, k) == run[k - cur])
    && (cur <= SINGLE_LIMIT < new_ ==>
          var second := IndexWord(c, r.doubly, 0);
          IsNew(u0, u, second) && second !in run && WordsInRange(c, second))
  }

  /** Hooking in a second-level block does not move the blocks reached without it. */
  lemma DoublyKeeps(c0: seq<Block>, c1: seq<Block>, c: seq<Block>, d: DiskInode, r: DiskInode, cur: nat)
    requires |d.direct| == DIRECT_PTRS && |r.direct| == DIRECT_PTRS && cur <= SINGLE_LIMIT
    requires r.indirect == d.indirect < |c| && r.doubly == d.doubly < |c| && |c0| == |c1| == |c|
    requires c[d.indirect] == c1[d.indirect]
    requires forall k :: 0 <= k < cur ==> PtrOf(c1, r, k) == PtrOf(c0, d, k)
    requires forall i :: 0 <= i < INDIRECT_BLOCK_PTRS ==>
      IndexWord(c1, d.indirect, i) == IndexWord(c0, d.indirect, i) || IndexWord(c1, d.indirect, i) < |c|
    requires c[d.doubly] == c0[d.doubly] || IndexWord(c, d.doubly, 0) < |c|
    ensures KeptBlocks(c0, c, d, r, cur)
  {
    assert forall i :: 0 <= i < INDIRECT_BLOCK_PTRS ==> IndexWord(c, d.indirect, i) == IndexWord(c1, d.indirect, i);
    assert forall k :: 0 <= k < cur ==> PtrOf(c, r, k) == PtrOf(c1, r, k);
  }

  /** The length an inode records plays no part in where its blocks are. */
  lemma Relength(c0: seq<Block>, u0: seq<bool>, c: seq<Block>, u: seq<bool>, d: DiskInode, r: DiskInode, cur: nat,
                 new_: nat, run: seq<nat>, length: nat)
    requires KeptBlocks(c0, c, d, r, cur) && GainedBlocks(u0, c, u, r, cur, new_, run)
    ensures KeptBlocks(c0, c, d, r.(length := length), cur)
    ensures GainedBlocks(u0, c, u, r.(length := length), cur, new_, run)
  {
    assert forall k :: 0 <= k < new_ ==> PtrOf(c, r.(length := length), k) == PtrOf(c, r, k);
  }

  lemma NothingMoved(c: seq<Block>, u: seq<bool>, d: DiskInode, n: nat)
    ensures KeptBlocks(c, c, d, d, n) && GainedBlocks(u, c, u, d, n, n, [])
  {
  }

  lemma SinglyFailed(c0: seq<Block>, c: seq<Block>, d: DiskInode, r: DiskInode, cur: nat)
    requires |d.direct| == DIRECT_PTRS && |r.direct| == DIRECT_PTRS && cur <= SINGLE_LIMIT
    requires r.indirect == d.indirect < |c0| && r.doubly == d.doubly < |c0| && |c| == |c0|
    requires c[d.indirect] == c0[d.indirect] && c[d.doubly] == c0[d.doubly]
    requires forall i :: 0 <= i < DIRECT_PTRS && i < cur ==> r.direct[i] == d.direct[i]
    ensures KeptBlocks(c0, c, d, r, cur)
  {
    assert forall i :: 0 <= i < INDIRECT_BLOCK_PTRS ==> IndexWord(c, d.indirect, i) == IndexWord(c0, d.indirect, i);
  }

  lemma SinglyGains(u0: seq<bool>, c: seq<Block>, u: seq<bool>, r: DiskInode, cur: nat, new_: nat, run: seq<nat>)
    requires cur <= new_ <= SINGLE_LIMIT && |run| == new_ - cur && TakenRun(u0, c, u, run)
    requires forall k :: cur <= k < new_ ==> PtrOf(c, r, k) == run[k - cur]
    ensures GainedBlocks(u0, c, u, r, cur, new_, run)
  {
  }

  lemma DoublyGains(u0: seq<bool>, c1: seq<Block>, u1: seq<bool>, c: seq<Block>, u: seq<bool>, r: DiskInode, cur: nat,
                    new_: nat, run1: seq<nat>, run3: seq<nat>)
    requires |r.direct| == DIRECT_PTRS && cur <= SINGLE_LIMIT < new_ <= GROWTH_LIMIT
    requires |run1| == SINGLE_LIMIT - cur && TakenRun(u0, c1, u1, run1)
    requires |u0| == |u1| && forall s :: 0 <= s < |u0| && u0[s] ==> u1[s]
    requires Grew(c1, u1, c, u, {r.doubly})
    requires r.indirect < |u0| && u0[r.indirect] && r.doubly < |u0| && u0[r.doubly] && r.indirect != r.doubly
    requires forall k :: cur <= k < SINGLE_LIMIT ==> PtrOf(c1, r, k) == run1[k - cur]
    requires |run3| == new_ - SINGLE_LIMIT && TakenRun(u1, c, u, run3)
    requires var second := IndexWord(c, r.doubly, 0);
      && IsNew(u1, u, second) && second !in run3 && WordsInRange(c, second)
      && forall i :: 0 <= i < |run3| ==> IndexWord(c, second, i) == run3[i]
    ensures GainedBlocks(u0, c, u, r, cur, new_, run1 + run3)
  {
    TakenAppend(u0, c1, u1, c, u, run1, run3, {r.doubly});
    forall k | cur <= k < new_
      ensures PtrOf(c, r, k) == (run1 + run3)[k - cur]
    {
      if k < SINGLE_LIMIT {
        assert PtrOf(c1, r, k) == run1[k - cur];
      } else {
        assert (k - SINGLE_LIMIT) / INDIRECT_BLOCK_PTRS == 0
          && (k - SINGLE_LIMIT) % INDIRECT_BLOCK_PTRS == k - SINGLE_LIMIT;
      }
    }
    var second := IndexWord(c, r.doubly, 0);
    forall i | 0 <= i < |run1|
      ensures run1[i] != second
    {
      assert Taken(u0, c1, u1, run1[i]);
    }
  }

  /** `s` was free before and is now taken. */
  ghost predicate IsNew(used0: seq<bool>, used: seq<bool>, s: nat) {
    0 < s < |used| == |used0| && !used0[s] && used[s]
  }
}
