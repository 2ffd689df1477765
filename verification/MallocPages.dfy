/**
 Pages and blocks of the block allocator counted: no page is lost, and every size gets a
 block of the right kind.
 */
module MallocPages {

  import opened Pallocs
  import opened MallocTheory

  // ---------- No page is lost ----------

  /** Page `p` belongs to an arena. */
  ghost predicate Owned(arenas: map<nat, Arena>, p: nat) {
    exists a :: a in arenas && p in Span(PgNo(a), Pages(arenas[a]))
  }

  /** The pages in use that belong to no arena, but to others. */
  ghost function Others(pg: set<nat>, arenas: map<nat, Arena>): set<nat> {
    set p | p in pg && !Owned(arenas, p)
  }

  ghost predicate SamePages(arenas: map<nat, Arena>, arenas': map<nat, Arena>) {
    arenas.Keys == arenas'.Keys && forall a :: a in arenas ==> Pages(arenas[a]) == Pages(arenas'[a])
  }

  lemma SameOthers(pg: set<nat>, arenas: map<nat, Arena>, arenas': map<nat, Arena>)
    requires SamePages(arenas, arenas')
    ensures Others(pg, arenas) == Others(pg, arenas')
  {
    hide Span;
    forall p
      ensures Owned(arenas, p) <==> Owned(arenas', p)
    {
      SameOwner(arenas, arenas', p);
    }
  }

  lemma SameOwner(arenas: map<nat, Arena>, arenas': map<nat, Arena>, p: nat)
    requires SamePages(arenas, arenas')
    ensures Owned(arenas, p) <==> Owned(arenas', p)
  {
    hide Span, Pages;
    if Owned(arenas, p) {
      var a :| a in arenas && p in Span(PgNo(a), Pages(arenas[a]));
      assert a in arenas';
    }
    if Owned(arenas', p) {
      var a :| a in arenas' && p in Span(PgNo(a), Pages(arenas'[a]));
      assert a in arenas;
    }
  }

  /** A new arena owns its own pages and no others. */
  lemma OthersAfterAdding(pg: set<nat>, arenas: map<nat, Arena>, a: nat, ar: Arena)
    requires a !in arenas && Span(PgNo(a), Pages(ar)) !! pg
    ensures Others(pg + Span(PgNo(a), Pages(ar)), arenas[a := ar]) == Others(pg, arenas)
  {
    hide Span, Pages;
    var more := arenas[a := ar];
    forall p
      ensures Owned(more, p) <==> Owned(arenas, p) || p in Span(PgNo(a), Pages(ar))
    {
      if Owned(arenas, p) {
        var b :| b in arenas && p in Span(PgNo(b), Pages(arenas[b]));
        assert b in more && more[b] == arenas[b];
      }
      if p in Span(PgNo(a), Pages(ar)) {
        assert a in more;
      }
    }
  }

  lemma OthersAfterGrowing(pg: set<nat>, h: Heap, d: nat, a: nat)
    requires a !in h.arenas && Span(PgNo(a), 1) !! pg
    ensures Others(pg + Span(PgNo(a), 1), Grown(h, d, a).arenas) == Others(pg, h.arenas)
  {
    hide Span, Others;
    OthersAfterAdding(pg, h.arenas, a, Small(d, PerArena(d)));
  }

  /** The pages of an arena that goes are no other arena's. */
  lemma OthersAfterDropping(pg: set<nat>, h: Heap, live: map<Slot, nat>, a: nat)
    requires Consistent(pg, h, live) && a in h.arenas
    ensures Others(pg - Span(PgNo(a), Pages(h.arenas[a])), h.arenas - {a}) == Others(pg, h.arenas)
  {
    assert forall b :: b in h.arenas && b != a ==> Apart(h, a, b);
    hide Span, Pages, Consistent;
    var fewer := h.arenas - {a};
    forall p
      ensures Owned(h.arenas, p) <==> Owned(fewer, p) || p in Span(PgNo(a), Pages(h.arenas[a]))
    {
      if Owned(h.arenas, p) {
        var b :| b in h.arenas && p in Span(PgNo(b), Pages(h.arenas[b]));
        assert b != a ==> b in fewer && fewer[b] == h.arenas[b];
      }
      if Owned(fewer, p) {
        var b :| b in fewer && p in Span(PgNo(b), Pages(fewer[b]));
        assert b in h.arenas && h.arenas[b] == fewer[b];
      }
    }
    forall p | p in Span(PgNo(a), Pages(h.arenas[a]))
      ensures !Owned(fewer, p)
    {
      assert forall b :: b in fewer ==> b in h.arenas && b != a && Apart(h, a, b) && fewer[b] == h.arenas[b];
    }
  }

  /** Taking a block from a free list or putting one there leaves the arenas where they are. */
  lemma PopPages(pg: set<nat>, h: Heap, live: map<Slot, nat>, d: nat)
    requires Consistent(pg, h, live) && d < |SIZES| && FreeList(h, d) != []
    ensures SamePages(h.arenas, Popped(h, d).arenas)
    ensures
      var a := FreeList(h, d)[0].arena;
      a in Popped(h, d).arenas && Popped(h, d).arenas[a].Small? && Popped(h, d).arenas[a].d == d
  {
    var s := FreeList(h, d)[0];
    assert ListOk(h, d) && s in FreeList(h, d) && FreeOk(h, d, s);
  }

  lemma PushPages(h: Heap, d: nat, s: Slot)
    requires s.arena in h.arenas && h.arenas[s.arena].Small?
    ensures SamePages(h.arenas, Pushed(h, d, s).arenas)
  {
  }

  /** Once every block has been given back there is no arena left, and all pages in use are others'. */
  lemma AllGivenBack(pg: set<nat>, h: Heap, live: map<Slot, nat>)
    requires Consistent(pg, h, live) && NoIdle(h) && live == map[]
    ensures h.arenas == map[] && Others(pg, h.arenas) == pg
  {
    forall a | a in h.arenas
      ensures false
    {
      var i := SlotInUse(pg, h, a);
    }
    assert h.arenas == map[];
  }

  /** An arena is kept only for a block in use. */
  lemma SlotInUse(pg: set<nat>, h: Heap, a: nat) returns (i: nat)
    requires a in h.arenas && ArenaOk(pg, h, a) && NoIdle(h)
    ensures InUse(h, Slot(a, i))
  {
    var ar := h.arenas[a];
    if ar.Big? {
      i := 0;
    } else {
      var free := FreeOf(FreeList(h, ar.d), a, PerArena(ar.d));
      i := Outside(free, PerArena(ar.d));
    }
  }

  lemma {:induction false} Outside(s: set<nat>, n: nat) returns (i: nat)
    requires |s| < n
    ensures i < n && i !in s
  {
    i := n - 1;
    if i in s {
      i := Outside(s - {i}, n - 1);
    }
  }

  // ---------- Which block a size gets ----------

  /** Descriptor `d` is the one for blocks of `size` bytes: the least power of 2 from 16 that holds them. */
  predicate RightFor(d: nat, size: nat) {
    match d
    case 0 => size <= 16
    case 1 => 16 < size <= 32
    case 2 => 32 < size <= 64
    case 3 => 64 < size <= 128
    case 4 => 128 < size <= 256
    case 5 => 256 < size <= 512
    case 6 => 512 < size <= 1024
    case _ => false
  }

  lemma DescriptorIs(d: nat, size: nat)
    requires d < |SIZES| && size <= SizeOf(d) && forall e :: 0 <= e < d ==> SizeOf(e) < size
    ensures RightFor(d, size)
  {
    if d > 0 {
      assert SizeOf(d - 1) < size;
    }
  }

  lemma TooBig(size: nat)
    requires forall e :: 0 <= e < |SIZES| ==> SizeOf(e) < size
    ensures size > 1024
  {
    assert SizeOf(6) < size;
  }
}
