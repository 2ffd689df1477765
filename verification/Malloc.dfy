/**
 malloc(), free() and realloc().
 */
module Mallocs {

  import opened Options
  import opened Division
  import opened Pallocs
  import opened MallocTheory
  import opened MallocPages

  /** malloc_init(): the block sizes of the descriptors are the powers of 2 from 16 up to less than half a page. */
  method DescriptorSizes() returns (sizes: seq<nat>)
    ensures sizes == SIZES == [16, 32, 64, 128, 256, 512, 1024]
  {
    sizes := [];
    var size := 16;
    while size < PGSIZE / 2
      invariant |sizes| <= 7 && size == if |sizes| < 7 then SIZES[|sizes|] else 2048
      invariant sizes == SIZES[..|sizes|]
      decreases PGSIZE - size
    {
      sizes := sizes + [size];
      size := size * 2;
    }
  }

  /** The smallest descriptor for `size` bytes, or the number of descriptors. */
  method FindDescriptor(size: nat) returns (d: nat)
    ensures d <= |SIZES|
    ensures d < |SIZES| ==> size <= SizeOf(d)
    ensures forall e :: 0 <= e < d ==> SizeOf(e) < size
  {
    d := 0;
    while d < |SIZES| && SIZES[d] < size
      invariant d <= |SIZES| && forall e :: 0 <= e < d ==> SizeOf(e) < size
    {
      d := d + 1;
    }
  }

  // sizes are below this
  const SIZE_LIMIT: nat := 0x1_0000_0000

  /** Pages for a big block and its header, rounded up in 32 bits. */
  function PagesFor(size: nat): nat {
    (size + ARENA_HEADER + PGSIZE - 1) % SIZE_LIMIT / PGSIZE
  }

  /** How many of the bytes asked for the block can hold. */
  function Granted(size: nat): nat {
    var room := PagesFor(size) * PGSIZE;
    if size + ARENA_HEADER <= room || room == 0 then size else room - ARENA_HEADER
  }

  /**
   Blocks of more than 1024 bytes get whole pages with 12 bytes for a header.  The rounding
   wraps around for the largest sizes: then there is one page, or none and no block.
   */
  lemma GrantedIff(size: nat)
    requires size < SIZE_LIMIT
    ensures size <= 4294963188 ==> PagesFor(size) == (size + 12 + 4095) / 4096 && PagesFor(size) > 0
    ensures 4294963188 < size <= 4294967284 ==> PagesFor(size) == 0
    ensures size > 4294967284 ==> PagesFor(size) == 1 && Granted(size) == 4084
    ensures PagesFor(size) > 0 ==> (Granted(size) == size <==> size <= 4294967284)
    ensures PagesFor(size) > 0 ==> (Granted(size) == size <==> size <= SIZE_LIMIT - ARENA_HEADER)
    ensures PagesFor(size) > 0 ==> Granted(size) + ARENA_HEADER <= PagesFor(size) * PGSIZE
    ensures size <= 1024 ==> PagesFor(size) == 1 && Granted(size) == size
    ensures size > SIZE_LIMIT - ARENA_HEADER ==> PagesFor(size) == 1 && Granted(size) == PGSIZE - ARENA_HEADER
  {
  }

  /** realloc() copies within the new block exactly if that is large enough or the old one fits in a page. */
  lemma CopyFitsIff(newSize: nat, oldSize: nat)
    requires newSize < SIZE_LIMIT && PagesFor(newSize) > 0
    ensures Min(newSize, oldSize) <= Granted(newSize) <==>
      newSize <= SIZE_LIMIT - ARENA_HEADER || oldSize <= PGSIZE - ARENA_HEADER
  {
    GrantedIff(newSize);
    hide PagesFor, Granted;
  }

  class Malloc {
    const pages: Palloc
    var freeLists: seq<seq<Slot>>
    var arenas: map<nat, Arena>
    // the blocks handed out, with the sizes asked for
    ghost var live: map<Slot, nat>
    ghost var mem: Memory

    ghost function H(): Heap
      reads this
    {
      Heap(arenas, freeLists)
    }

    ghost predicate Valid()
      reads this, pages, pages.kernel, pages.user, pages.kernel.used, pages.user.used, pages.kernel.used.words,
        pages.user.used.words
    {
      pages.Valid() && Consistent(pages.Live(), H(), live) && NoIdle(H())
    }

    /** The kernel pool has no `cnt` free pages in a row. */
    ghost predicate Exhausted(cnt: nat)
      reads pages.kernel.used, pages.user.used
    {
      forall p :: pages.kernel.First() <= p && p + cnt <= pages.kernel.End() ==> !(Span(p, cnt) !! pages.Live())
    }

    constructor (pages: Palloc)
      requires pages.Valid()
      ensures Valid() && live == map[] && this.pages == pages
    {
      this.pages := pages;
      freeLists := seq(|SIZES|, _ => []);
      arenas := map[];
      live := map[];
      mem := (_: nat) => 0;
    }

    /** Links of list elements and headers of arenas are written; no block in use is. */
    ghost method WriteOwn(pg: set<nat>)
      requires Consistent(pg, H(), live)
      modifies this`mem
      ensures WroteOwn(H(), old(mem), mem) && Undisturbed(H(), old(mem), H(), mem, live.Keys)
    {
      hide Consistent, Undisturbed, OwnByte;
      assert WroteOwn(H(), mem, mem);
      var m :| WroteOwn(H(), mem, m);
      OwnWritesKeep(pg, H(), live, mem, m);
      mem := m;
    }

    /** Makes page `a` an arena of descriptor `d` and adds its blocks to the free list. */
    method AddArena(d: nat, a: nat)
      requires d < |SIZES| == |freeLists|
      modifies this`freeLists, this`arenas
      ensures H() == Grown(old(H()), d, a)
    {
      arenas := arenas[a := Small(d, PerArena(d))];
      ghost var before := freeLists;
      assert before[d] + Slots(a, 0) == before[d];
      for i := 0 to PerArena(d)
        invariant freeLists == before[d := before[d] + Slots(a, i)]
        invariant arenas == old(arenas)[a := Small(d, PerArena(d))]
      {
        freeLists := freeLists[d := freeLists[d] + [Slot(a, i)]];
        assert before[d] + Slots(a, i + 1) == before[d] + Slots(a, i) + [Slot(a, i)];
      }
    }

    /** Takes the block at the front of a free list off it. */
    method Unlink(d: nat, ghost pg: set<nat>) returns (b: Slot)
      requires Consistent(pg, H(), live) && d < |SIZES| && FreeList(H(), d) != []
      modifies this`freeLists, this`arenas
      ensures H() == Popped(old(H()), d) && b == FreeList(old(H()), d)[0]
    {
      b := freeLists[d][0];
      assert ListOk(H(), d) && b in FreeList(H(), d) && FreeOk(H(), d, b) && ArenaOk(pg, H(), b.arena);
      assert b.idx in FreeOf(FreeList(H(), d), b.arena, PerArena(d));
      freeLists := freeLists[d := freeLists[d][1..]];
      arenas := arenas[b.arena := arenas[b.arena].(freeCnt := arenas[b.arena].freeCnt - 1)];
    }

    /** Hands out the block at the front of a free list. */
    method TakeFront(d: nat, ghost size: nat) returns (p: nat, ghost s: Slot)
      requires pages.Valid() && Consistent(pages.Live(), H(), live)
      requires d < |SIZES| && size <= SizeOf(d) && FreeList(H(), d) != [] && NoIdleBut(H(), FreeList(H(), d)[0].arena)
      modifies this
      ensures Valid()
      ensures s !in old(live) && live == old(live)[s := size] && InUse(H(), s) && p == AddrOf(arenas[s.arena], s)
      ensures s == old(FreeList(H(), d))[0] && arenas[s.arena].Small? && arenas[s.arena].d == d
      ensures Others(pages.Live(), arenas) == old(Others(pages.Live(), arenas))
      ensures Undisturbed(old(H()), old(mem), H(), mem, old(live).Keys)
    {
      ghost var h, pg, m, was := H(), pages.Live(), mem, live;
      hide Consistent, NoIdle, NoIdleBut, Popped, Undisturbed, FreeList, InUse, AddrOf, WroteOwn, Others, SamePages;
      PopKeeps(pg, h, live, d, size);
      PopPages(pg, h, live, d);
      SameOthers(pg, h.arenas, Popped(h, d).arenas);
      PopNoIdle(pg, h, live, d);
      PopSizes(pg, h, live, d);
      SameBlocks(pg, h, live, Popped(h, d), m);
      var b := Unlink(d, pg);
      s := b;
      live := live[s := size];
      WriteOwn(pg);
      UndisturbedLess(H(), m, H(), mem, live.Keys, was.Keys);
      UndisturbedTrans(h, m, H(), m, H(), mem, was.Keys);
      LiveInUse(pg, H(), live, s);
      p := AddrOf(arenas[b.arena], b);
    }

    /** One page from the kernel pool. */
    method GetPage() returns (a: Option<nat>)
      requires pages.Valid()
      modifies pages.kernel.used`bits, pages.user.used`bits, pages.kernel.used.words, pages.user.used.words
      ensures pages.Valid()
      ensures a.Some? ==>
        && a.value > 0 && a.value % PGSIZE == 0 && Span(PgNo(a.value), 1) !! old(pages.Live())
        && pages.Live() == old(pages.Live()) + Span(PgNo(a.value), 1)
      ensures a.None? ==> pages.Live() == old(pages.Live()) && Exhausted(1)
    {
      a := pages.GetMultiple(false, 1);
    }

    /** Makes the new page `a` an arena for an empty free list. */
    method FillArena(d: nat, a: nat, ghost pg: set<nat>)
      requires Consistent(pg, H(), live) && NoIdle(H()) && d < |SIZES| && FreeList(H(), d) == []
      requires a > 0 && a % PGSIZE == 0 && Span(PgNo(a), 1) !! pg
      modifies this`freeLists, this`arenas, this`mem
      ensures Consistent(pg + Span(PgNo(a), 1), H(), live)
      ensures FreeList(H(), d) != [] && NoIdleBut(H(), FreeList(H(), d)[0].arena)
      ensures Undisturbed(old(H()), old(mem), H(), mem, live.Keys)
      ensures Others(pg + Span(PgNo(a), 1), arenas) == Others(pg, old(arenas))
    {
      hide Consistent, NoIdle, NoIdleBut, Grown, Undisturbed, WroteOwn, FreeList, Others, Span, PgNo;
      ghost var h, m := H(), mem;
      FrontIsBusy(pg, h, live, d);
      GrowAll(pg, h, live, d, a, m);
      FreshArena(pg, h, live, a, 1);
      OthersAfterGrowing(pg, h, d, a);
      AddArena(d, a);
      WriteOwn(pg + Span(PgNo(a), 1));
      UndisturbedTrans(h, m, H(), m, H(), mem, live.Keys);
    }

    /** Gets an arena for an empty free list, if there is a page for it. */
    method Refill(d: nat) returns (ok: bool)
      requires Valid() && d < |SIZES| && FreeList(H(), d) == []
      modifies this, pages.kernel.used`bits, pages.user.used`bits, pages.kernel.used.words, pages.user.used.words
      ensures live == old(live) && Undisturbed(old(H()), old(mem), H(), mem, live.Keys)
      ensures !ok ==> Valid() && Exhausted(1)
      ensures ok ==> pages.Valid() && Consistent(pages.Live(), H(), live)
      ensures ok ==> FreeList(H(), d) != [] && NoIdleBut(H(), FreeList(H(), d)[0].arena)
      ensures Others(pages.Live(), arenas) == old(Others(pages.Live(), arenas))
    {
      hide Consistent, NoIdle, NoIdleBut, Undisturbed, FreeList, Others, Span, PgNo, Exhausted;
      ghost var pg := pages.Live();
      SameBlocks(pg, H(), live, H(), mem);
      var a := GetPage();
      if a.None? {
        return false;
      }
      FillArena(d, a.value, pg);
      ok := true;
    }

    method MallocSmall(d: nat, size: nat) returns (p: Option<nat>, ghost s: Slot)
      requires Valid() && d < |SIZES| && size <= SizeOf(d)
      modifies this, pages.kernel.used`bits, pages.user.used`bits, pages.kernel.used.words, pages.user.used.words
      ensures Valid()
      ensures p.None? ==> live == old(live) && Exhausted(1) && old(FreeList(H(), d)) == []
      ensures p.Some? ==>
        s !in old(live) && live == old(live)[s := size] && InUse(H(), s) && p.value == AddrOf(arenas[s.arena], s)
      ensures p.Some? ==> arenas[s.arena].Small? && arenas[s.arena].d == d
      ensures old(FreeList(H(), d)) != [] ==>
        p.Some? && s == old(FreeList(H(), d))[0] && pages.Live() == old(pages.Live())
      ensures Others(pages.Live(), arenas) == old(Others(pages.Live(), arenas))
      ensures Undisturbed(old(H()), old(mem), H(), mem, old(live).Keys)
    {
      ghost var h, m, was := H(), mem, live;
      hide Consistent, NoIdle, NoIdleBut, Undisturbed, InUse, AddrOf, Others;
      SameBlocks(pages.Live(), h, live, h, m);
      FrontIsBusy(pages.Live(), h, live, d);
      s := Slot(0, 0);
      if freeLists[d] == [] {
        var ok := Refill(d);
        if !ok {
          return None, s;
        }
      }
      ghost var h1, m1 := H(), mem;
      var q;
      q, s := TakeFront(d, size);
      UndisturbedTrans(h, m, h1, m1, H(), mem, was.Keys);
      p := Some(q);
    }

    /** Makes the `cnt` pages at `a` an arena with one big block in use. */
    method AddBig(a: nat, cnt: nat, ghost size: nat, ghost pg: set<nat>)
      requires Consistent(pg, H(), live) && NoIdle(H())
      requires cnt > 0 && a > 0 && a % PGSIZE == 0 && Span(PgNo(a), cnt) !! pg && size + ARENA_HEADER <= cnt * PGSIZE
      modifies this
      ensures Slot(a, 0) !in old(live) && live == old(live)[Slot(a, 0) := size] && arenas == old(arenas)[a := Big(cnt)]
      ensures Consistent(pg + Span(PgNo(a), cnt), H(), live) && NoIdle(H()) && InUse(H(), Slot(a, 0))
      ensures Undisturbed(old(H()), old(mem), H(), mem, old(live).Keys)
      ensures arenas == old(arenas)[a := Big(cnt)]
      ensures Others(pg + Span(PgNo(a), cnt), arenas) == Others(pg, old(arenas))
    {
      hide Consistent, NoIdle, Undisturbed, InUse, WroteOwn, Span, Others;
      ghost var h, m, was := H(), mem, live;
      BigAll(pg, h, live, a, cnt, size, m);
      FreshArena(pg, h, live, a, cnt);
      OthersAfterAdding(pg, h.arenas, a, Big(cnt));
      arenas := arenas[a := Big(cnt)];
      live := live[Slot(a, 0) := size];
      WriteOwn(pg + Span(PgNo(a), cnt));
      UndisturbedLess(H(), m, H(), mem, live.Keys, was.Keys);
      UndisturbedTrans(h, m, H(), m, H(), mem, was.Keys);
    }

    method MallocBig(size: nat) returns (p: Option<nat>, ghost s: Slot)
      requires Valid() && size < SIZE_LIMIT
      modifies this, pages.kernel.used`bits, pages.user.used`bits, pages.kernel.used.words, pages.user.used.words
      ensures Valid()
      ensures p.None? ==> live == old(live) && (PagesFor(size) == 0 || Exhausted(PagesFor(size)))
      ensures p.Some? ==> PagesFor(size) > 0
      ensures p.Some? ==> s.arena in arenas && arenas[s.arena] == Big(PagesFor(size))
      ensures Others(pages.Live(), arenas) == old(Others(pages.Live(), arenas))
      ensures p.Some? ==>
        && s !in old(live) && live == old(live)[s := Granted(size)]
        && InUse(H(), s) && p.value == AddrOf(arenas[s.arena], s)
      ensures Undisturbed(old(H()), old(mem), H(), mem, old(live).Keys)
    {
      ghost var h, pg, m := H(), pages.Live(), mem;
      hide Consistent, NoIdle, Undisturbed, InUse, PagesFor, Granted, Others;
      GrantedIff(size);
      SameBlocks(pg, h, live, h, m);
      s := Slot(0, 0);
      var cnt := PagesFor(size);
      var a := pages.GetMultiple(false, cnt);
      if a.None? {
        return None, s;
      }
      s := Slot(a.value, 0);
      AddBig(a.value, cnt, Granted(size), pg);
      p := Some(a.value + ARENA_HEADER);
    }

    /**
     malloc().  The block is as long as was asked, except that the last eleven sizes below
     2 to the 32 get a block of one page.
     */
    method Alloc(size: nat) returns (p: Option<nat>, ghost s: Slot)
      requires Valid() && size < SIZE_LIMIT
      modifies this, pages.kernel.used`bits, pages.user.used`bits, pages.kernel.used.words, pages.user.used.words
      ensures Valid()
      ensures size == 0 ==> p.None?
      ensures p.None? ==> live == old(live)
      ensures p.None? && size > 0 ==> PagesFor(size) == 0 || Exhausted(PagesFor(size))
      ensures p.Some? ==>
        && s !in old(live) && live == old(live)[s := Granted(size)]
        && InUse(H(), s) && p.value == AddrOf(arenas[s.arena], s)
      ensures p.Some? ==> (Granted(size) == size <==> size <= SIZE_LIMIT - ARENA_HEADER)
      ensures p.Some? && size <= 1024 ==> arenas[s.arena].Small? && RightFor(arenas[s.arena].d, size)
      ensures p.Some? && size > 1024 ==> arenas[s.arena] == Big(PagesFor(size))
      ensures forall d :: 0 < size && RightFor(d, size) && old(FreeList(H(), d)) != [] ==>
        p.Some? && s == old(FreeList(H(), d))[0] && pages.Live() == old(pages.Live())
      ensures Others(pages.Live(), arenas) == old(Others(pages.Live(), arenas))
      ensures Undisturbed(old(H()), old(mem), H(), mem, old(live).Keys)
    {
      hide Consistent, NoIdle, Undisturbed, InUse, AddrOf, Exhausted, PagesFor, Granted, Others;
      GrantedIff(size);
      if size == 0 {
        SameBlocks(pages.Live(), H(), live, H(), mem);
        return None, Slot(0, 0);
      }
      var d := FindDescriptor(size);
      if d == |SIZES| {
        TooBig(size);
        p, s := MallocBig(size);
      } else {
        DescriptorIs(d, size);
        p, s := MallocSmall(d, size);
      }
    }

    /** block_to_arena(), with the place of the block in a small arena. */
    method BlockToArena(p: nat, ghost s: Slot) returns (b: Slot)
      requires Valid() && s in live && p == AddrOf(arenas[s.arena], s)
      ensures b == s && b.arena in arenas
    {
      var a := p - p % PGSIZE;
      LiveInUse(pages.Live(), H(), live, s);
      AddressLeadsBack(arenas[s.arena], s);
      b := Slot(a, if arenas[a].Small? then (p % PGSIZE - ARENA_HEADER) / SizeOf(arenas[a].d) else 0);
    }

    /** Takes all blocks of arena `a` off their free list. */
    method RemoveBlocks(d: nat, a: nat)
      requires |freeLists| == |SIZES| && d < |SIZES| && ListOk(H(), d)
      modifies this`freeLists
      ensures exists free :: LeftOf(free, old(freeLists)[d], a) && freeLists == old(freeLists)[d := free]
    {
      ghost var h := H();
      for i := 0 to PerArena(d)
        invariant |freeLists| == |SIZES| && freeLists == h.freeLists[d := freeLists[d]]
        invariant LeftSoFar(freeLists[d], h.freeLists[d], a, i)
      {
        OneLess(freeLists[d], h.freeLists[d], a, i);
        freeLists := freeLists[d := Minus(freeLists[d], Slot(a, i))];
      }
      AllOff(h, d, a, freeLists[d]);
    }

    /** Puts a block on its free list. */
    method Link(b: Slot, ghost pg: set<nat>)
      requires Consistent(pg, H(), live) && NoIdle(H()) && b in live && b.arena in arenas && arenas[b.arena].Small?
      modifies this
      ensures H() == Pushed(old(H()), old(arenas)[b.arena].d, b) && live == old(live) - {b}
      ensures Others(pg, arenas) == Others(pg, old(arenas))
      ensures Consistent(pg, H(), live) && NoIdleBut(H(), b.arena)
      ensures Undisturbed(old(H()), old(mem), H(), mem, live.Keys)
      ensures b.arena in arenas && arenas[b.arena].Small? && arenas[b.arena].freeCnt <= PerArena(arenas[b.arena].d)
      ensures var d := arenas[b.arena].d; d < |SIZES| == |freeLists| && ListOk(H(), d)
    {
      ghost var h, m := H(), mem;
      hide NoIdle, NoIdleBut, Undisturbed, WroteOwn, ListOk, Others, SamePages;
      var d := arenas[b.arena].d;
      PushAll(pg, h, live, b, m);
      PushPages(h, d, b);
      SameOthers(pg, h.arenas, Pushed(h, d, b).arenas);
      hide Consistent;
      freeLists := freeLists[d := [b] + freeLists[d]];
      arenas := arenas[b.arena := arenas[b.arena].(freeCnt := arenas[b.arena].freeCnt + 1)];
      live := live - {b};
      assert H() == Pushed(h, d, b);
      WriteOwn(pg);
      UndisturbedTrans(h, m, H(), m, H(), mem, live.Keys);
    }

    /** Gives the page of an arena whose blocks are all free back to the page allocator. */
    method ReleaseArena(a: nat)
      requires pages.Valid() && Consistent(pages.Live(), H(), live) && NoIdleBut(H(), a) && a in arenas
      requires arenas[a].Small?
      requires var d := arenas[a].d; d < |SIZES| == |freeLists| && ListOk(H(), d) && arenas[a].freeCnt == PerArena(d)
      modifies this, pages.kernel.used`bits, pages.user.used`bits, pages.kernel.used.words, pages.user.used.words
      ensures Valid() && live == old(live) && arenas == old(arenas) - {a}
      ensures Undisturbed(old(H()), old(mem), H(), mem, live.Keys)
      ensures Others(pages.Live(), arenas) == old(Others(pages.Live(), arenas))
    {
      ghost var h, pg, m := H(), pages.Live(), mem;
      hide Consistent, NoIdle, NoIdleBut, Undisturbed, ListOk, LeftOf, Filled, Others;
      OthersAfterDropping(pg, h, live, a);
      RemoveBlocks(arenas[a].d, a);
      ghost var free :| LeftOf(free, h.freeLists[h.arenas[a].d], a) && freeLists == h.freeLists[h.arenas[a].d := free];
      DropAll(pg, h, live, a, free, m);
      pages.FreeMultiple(a, 1);
      arenas := arenas - {a};
      mem := Filled(mem, a, PGSIZE);
      assert H() == Dropped(h, h.arenas[a].d, a, free);
    }

    method FreeBig(b: Slot)
      requires Valid() && b in live && b.arena in arenas && arenas[b.arena].Big?
      modifies this, pages.kernel.used`bits, pages.user.used`bits, pages.kernel.used.words, pages.user.used.words
      ensures Valid() && live == old(live) - {b}
      ensures Undisturbed(old(H()), old(mem), H(), mem, live.Keys)
      ensures Others(pages.Live(), arenas) == old(Others(pages.Live(), arenas))
    {
      ghost var h, pg, m := H(), pages.Live(), mem;
      hide Consistent, NoIdle, Undisturbed, Filled, Others, Span, PgNo, Palloc.Live, Palloc.Valid;
      OthersAfterDropping(pg, h, live, b.arena);
      BigDropAll(pg, h, live, b, m);
      var cnt := arenas[b.arena].pageCnt;
      pages.FreeMultiple(b.arena, cnt);
      arenas := arenas - {b.arena};
      live := live - {b};
      mem := Filled(mem, b.arena, cnt * PGSIZE);
    }

    /** free() */
    method Free(p: nat, ghost s: Slot)
      requires Valid() && (p == 0 || (s in live && p == AddrOf(arenas[s.arena], s)))
      modifies this, pages.kernel.used`bits, pages.user.used`bits, pages.kernel.used.words, pages.user.used.words
      ensures Valid() && live == if p == 0 then old(live) else old(live) - {s}
      ensures Undisturbed(old(H()), old(mem), H(), mem, live.Keys)
      ensures Others(pages.Live(), arenas) == old(Others(pages.Live(), arenas))
    {
      hide Consistent, NoIdle, NoIdleBut, Undisturbed, ListOk, Pushed, AddrOf, Others;
      if p == 0 {
        SameBlocks(pages.Live(), H(), live, H(), mem);
        return;
      }
      var b := BlockToArena(p, s);
      if arenas[b.arena].Big? {
        FreeBig(b);
        return;
      }
      ghost var h, m := H(), mem;
      Link(b, pages.Live());
      if arenas[b.arena].freeCnt >= PerArena(arenas[b.arena].d) {
        assert arenas[b.arena].freeCnt == PerArena(arenas[b.arena].d);
        ghost var h1, m1 := H(), mem;
        ReleaseArena(b.arena);
        UndisturbedTrans(h, m, h1, m1, H(), mem, live.Keys);
      } else {
        BusyAgain(H(), b.arena);
      }
    }

    /** block_size() */
    method BlockSize(p: nat, ghost s: Slot) returns (size: nat)
      requires Valid() && s in live && p == AddrOf(arenas[s.arena], s)
      ensures size == Size(arenas[s.arena])
    {
      LiveInUse(pages.Live(), H(), live, s);
      AddressLeadsBack(arenas[s.arena], s);
      var b := BlockToArena(p, s);
      var ar := arenas[b.arena];
      size := if ar.Small? then SizeOf(ar.d) else PGSIZE * ar.pageCnt - p % PGSIZE;
    }

    /** Copies as much of block `s` as fits into block `t`, and frees `s`. */
    method Move(p: nat, q: nat, newSize: nat, ghost s: Slot, ghost t: Slot)
      requires Valid() && s in live && p == AddrOf(arenas[s.arena], s)
      requires s != t && t in live && Min(newSize, Size(arenas[s.arena])) <= live[t] && q == AddrOf(arenas[t.arena], t)
      requires p > 0
      modifies this, pages.kernel.used`bits, pages.user.used`bits, pages.kernel.used.words, pages.user.used.words
      ensures Valid() && live == old(live) - {s} && InUse(H(), t) && q == AddrOf(arenas[t.arena], t)
      ensures var n := Min(newSize, Size(old(arenas)[s.arena])); Bytes(mem, q, n) == Bytes(old(mem), p, n)
      ensures Undisturbed(old(H()), old(mem), H(), mem, old(live).Keys - {s, t})
      ensures Others(pages.Live(), arenas) == old(Others(pages.Live(), arenas))
    {
      hide Consistent, NoIdle, Undisturbed, InUse, AddrOf, Size, Copied, Bytes, BlockKept, Others;
      ghost var h, m, keep := H(), mem, live.Keys - {s, t};
      LiveFits(pages.Live(), h, live, s);
      LiveFits(pages.Live(), h, live, t);
      var size := BlockSize(p, s);
      var n := Min(newSize, size);
      ghost var m1 := Copied(m, q, p, n);
      CopiedBytes(m, q, p, n);
      CopyKeeps(pages.Live(), h, live, m, t, p, n);
      UndisturbedLess(h, m, h, m1, live.Keys - {t}, keep);
      mem := m1;
      Free(p, s);
      BytesKept(h, m1, H(), mem, live.Keys, t, n);
      UndisturbedLess(h, m1, H(), mem, live.Keys, keep);
      UndisturbedTrans(h, m, h, m1, H(), mem, keep);
      LiveInUse(pages.Live(), H(), live, t);
    }

    /**
     realloc(): the new block begins with as much of the old one as fits; the old one is
     gone; no other block changes.  If there is no memory, nothing changes.  A block of
     more than a page must not be given one of the sizes that wrap around: the copy would
     run past the new block.
     */
    method Realloc(p: nat, newSize: nat, ghost s: Slot) returns (r: Option<nat>, ghost t: Slot)
      requires Valid() && newSize < SIZE_LIMIT
      requires p == 0 || (s in live && p == AddrOf(arenas[s.arena], s))
      requires p == 0 || newSize <= SIZE_LIMIT - ARENA_HEADER || Size(arenas[s.arena]) <= PGSIZE - ARENA_HEADER
      modifies this, pages.kernel.used`bits, pages.user.used`bits, pages.kernel.used.words, pages.user.used.words
      ensures Valid()
      ensures newSize == 0 ==> r.None? && live == if p == 0 then old(live) else old(live) - {s}
      ensures newSize > 0 && r.None? ==>
        live == old(live) && (PagesFor(newSize) == 0 || Exhausted(PagesFor(newSize)))
      ensures Others(pages.Live(), arenas) == old(Others(pages.Live(), arenas))
      ensures r.Some? ==>
        && t !in old(live) && InUse(H(), t) && r.value == AddrOf(arenas[t.arena], t)
        && live == (if p == 0 then old(live) else old(live) - {s})[t := Granted(newSize)]
      ensures r.Some? && p != 0 ==>
        var n := Min(newSize, Size(old(arenas)[s.arena])); Bytes(mem, r.value, n) == Bytes(old(mem), p, n)
      ensures Undisturbed(old(H()), old(mem), H(), mem, live.Keys * old(live).Keys)
    {
      hide Consistent, NoIdle, Undisturbed, InUse, AddrOf, Size, Bytes, BlockKept, Exhausted, Granted, PagesFor,
           Others;
      ghost var h, m, was := H(), mem, live;
      if newSize == 0 {
        Free(p, s);
        assert live.Keys * was.Keys == live.Keys;
        return None, Slot(0, 0);
      }
      if p != 0 {
        LiveFits(pages.Live(), h, live, s);
      }
      GrantedIff(newSize);
      r, t := Alloc(newSize);
      if p == 0 || r.None? {
        assert live.Keys * was.Keys == was.Keys;
        return;
      }
      ghost var h1, m1 := H(), mem;
      assert live.Keys - {s, t} == was.Keys - {s};
      BytesKept(h, m, h1, m1, was.Keys, s, Min(newSize, Size(h.arenas[s.arena])));
      Move(p, r.value, newSize, s, t);
      UndisturbedLess(h, m, h1, m1, was.Keys, was.Keys - {s});
      assert was.Keys - {s} == live.Keys * was.Keys;
      UndisturbedTrans(h, m, h1, m1, H(), mem, was.Keys - {s});
    }
  }
}
