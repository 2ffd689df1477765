/**
 The state of the block allocator: arenas of equal blocks, one page each, arenas that
 hold one big block, and a list of free blocks for each block size.
 */
module MallocTheory {

  import opened Pallocs
  import opened Division
  import opened Sequences

  /** sizeof (struct arena) */
  const ARENA_HEADER: nat := 12
  /** The block sizes of the descriptors. */
  const SIZES: seq<nat> := [16, 32, 64, 128, 256, 512, 1024]

  function SizeOf(d: nat): (size: nat)
    ensures 16 <= size <= 1024
  {
    if d < |SIZES| then SIZES[d] else 1024
  }

  function PerArena(d: nat): (cnt: nat)
    ensures 3 <= cnt && ARENA_HEADER + cnt * SizeOf(d) <= PGSIZE
  {
    (PGSIZE - ARENA_HEADER) / SizeOf(d)
  }

  /** The header at the start of an arena's first page: its descriptor and free blocks, or its pages. */
  datatype Arena = Small(d: nat, freeCnt: nat) | Big(pageCnt: nat)

  /** A block: its arena's address and its place there. */
  datatype Slot = Slot(arena: nat, idx: nat)

  datatype Heap = Heap(arenas: map<nat, Arena>, freeLists: seq<seq<Slot>>)

  function Pages(ar: Arena): nat {
    if ar.Small? then 1 else ar.pageCnt
  }

  function Size(ar: Arena): nat {
    if ar.Small? then SizeOf(ar.d) else if ar.pageCnt == 0 then 0 else ar.pageCnt * PGSIZE - ARENA_HEADER
  }

  predicate HasSlot(ar: Arena, idx: nat) {
    if ar.Small? then idx < PerArena(ar.d) else idx == 0
  }

  function AddrOf(ar: Arena, s: Slot): nat {
    s.arena + ARENA_HEADER + s.idx * Size(ar)
  }

  function FreeList(h: Heap, d: nat): seq<Slot> {
    if d < |h.freeLists| then h.freeLists[d] else []
  }

  /** The places in arena `a` that are on a free list. */
  ghost function FreeOf(free: seq<Slot>, a: nat, cnt: nat): set<nat> {
    set i: nat | i < cnt && Slot(a, i) in free
  }

  ghost predicate ArenaOk(pg: set<nat>, h: Heap, a: nat)
    requires a in h.arenas
  {
    var ar := h.arenas[a];
    && a > 0 && a % PGSIZE == 0 && Pages(ar) > 0 && Span(PgNo(a), Pages(ar)) <= pg
    && (ar.Small? ==> ar.d < |SIZES| && ar.freeCnt == |FreeOf(FreeList(h, ar.d), a, PerArena(ar.d))|)
  }

  /** A free block is a block of an arena of its descriptor. */
  ghost predicate FreeOk(h: Heap, d: nat, s: Slot) {
    s.arena in h.arenas && h.arenas[s.arena].Small? && h.arenas[s.arena].d == d && s.idx < PerArena(d)
  }

  ghost predicate ListOk(h: Heap, d: nat) {
    NoDup(FreeList(h, d)) && forall s :: s in FreeList(h, d) ==> FreeOk(h, d, s)
  }

  /** A block that is not on a free list is in use. */
  ghost predicate InUse(h: Heap, s: Slot) {
    && s.arena in h.arenas && HasSlot(h.arenas[s.arena], s.idx)
    && (h.arenas[s.arena].Small? ==> s !in FreeList(h, h.arenas[s.arena].d))
  }

  ghost predicate Apart(h: Heap, a: nat, b: nat)
    requires a in h.arenas && b in h.arenas
  {
    Span(PgNo(a), Pages(h.arenas[a])) !! Span(PgNo(b), Pages(h.arenas[b]))
  }

  /** `pg` are the pages in use, and `live` the blocks handed out, with the sizes asked for. */
  ghost predicate Consistent(pg: set<nat>, h: Heap, live: map<Slot, nat>) {
    && |h.freeLists| == |SIZES|
    && (forall a :: a in h.arenas ==> ArenaOk(pg, h, a))
    && (forall a, b :: a in h.arenas && b in h.arenas && a != b ==> Apart(h, a, b))
    && (forall d :: 0 <= d < |SIZES| ==> ListOk(h, d))
    && (forall s :: s in live <==> InUse(h, s))
    && (forall s :: s in live ==> live[s] <= Size(h.arenas[s.arena]))
  }

  /** No arena is kept that has only free blocks. */
  ghost predicate NoIdle(h: Heap) {
    forall a :: a in h.arenas && h.arenas[a].Small? ==> h.arenas[a].freeCnt < PerArena(h.arenas[a].d)
  }

  // ---------- Addresses ----------

  /** A block's bytes. */
  ghost predicate ByteOf(ar: Arena, s: Slot, x: nat) {
    AddrOf(ar, s) <= x < AddrOf(ar, s) + Size(ar)
  }

  /** A block lies in its arena's pages, after the header. */
  lemma BlockInArena(ar: Arena, s: Slot, x: nat)
    requires HasSlot(ar, s.idx) && Pages(ar) > 0
    ensures ByteOf(ar, s, x) ==> s.arena + ARENA_HEADER <= x < s.arena + Pages(ar) * PGSIZE
  {
    if ar.Small? {
      Times(s.idx, PerArena(ar.d), SizeOf(ar.d));
    }
  }

  /** Two blocks of one arena do not overlap. */
  lemma SlotsApart(ar: Arena, s: Slot, t: Slot, x: nat)
    requires s.arena == t.arena && s != t && ByteOf(ar, s, x) && HasSlot(ar, s.idx) && HasSlot(ar, t.idx)
    ensures !ByteOf(ar, t, x)
  {
    if s.idx < t.idx {
      Times(s.idx, t.idx, Size(ar));
    } else {
      Times(t.idx, s.idx, Size(ar));
    }
    hide Size;
  }

  /** Arenas do not share an address. */
  lemma ArenasApart(h: Heap, a: nat, b: nat, x: nat)
    requires a in h.arenas && b in h.arenas && Apart(h, a, b) && a % PGSIZE == 0 && b % PGSIZE == 0
    requires a <= x < a + Pages(h.arenas[a]) * PGSIZE
    ensures !(b <= x < b + Pages(h.arenas[b]) * PGSIZE)
  {
    assert PgNo(x) in Span(PgNo(a), Pages(h.arenas[a]));
    assert PgNo(x) !in Span(PgNo(b), Pages(h.arenas[b]));
  }

  /** Blocks in use do not overlap. */
  lemma LiveBlocksApart(pg: set<nat>, h: Heap, live: map<Slot, nat>, s: Slot, t: Slot, x: nat)
    requires Consistent(pg, h, live) && s in live && t in live && s != t && ByteOf(h.arenas[s.arena], s, x)
    ensures !ByteOf(h.arenas[t.arena], t, x)
  {
    assert InUse(h, s) && InUse(h, t) && ArenaOk(pg, h, s.arena) && ArenaOk(pg, h, t.arena);
    BlockInArena(h.arenas[s.arena], s, x);
    if s.arena == t.arena {
      SlotsApart(h.arenas[s.arena], s, t, x);
    } else {
      assert Apart(h, s.arena, t.arena);
      ArenasApart(h, s.arena, t.arena, x);
      BlockInArena(h.arenas[t.arena], t, x);
    }
  }

  // ---------- Steps ----------

  /** The first `n` blocks of arena `a`. */
  function Slots(a: nat, n: nat): seq<Slot> {
    seq(n, (i: nat) => Slot(a, i))
  }

  function SetFree(h: Heap, d: nat, free: seq<Slot>): Heap {
    if d < |h.freeLists| then h.(freeLists := h.freeLists[d := free]) else h
  }

  function SetArena(h: Heap, a: nat, ar: Arena): Heap {
    h.(arenas := h.arenas[a := ar])
  }

  /** A new arena, with all its blocks free. */
  function Grown(h: Heap, d: nat, a: nat): Heap {
    SetArena(SetFree(h, d, FreeList(h, d) + Slots(a, PerArena(d))), a, Small(d, PerArena(d)))
  }

  lemma GrowKeeps(pg: set<nat>, h: Heap, live: map<Slot, nat>, d: nat, a: nat)
    requires Consistent(pg, h, live) && d < |SIZES|
    requires a > 0 && a % PGSIZE == 0 && PgNo(a) !in pg
    ensures Consistent(pg + {PgNo(a)}, Grown(h, d, a), live)
  {
    var h', pg' := Grown(h, d, a), pg + {PgNo(a)};
    assert a !in h.arenas by {
      assert a in h.arenas ==> ArenaOk(pg, h, a) && PgNo(a) in Span(PgNo(a), Pages(h.arenas[a]));
    }
    assert ListOk(h, d);
    forall b | b in h'.arenas
      ensures ArenaOk(pg', h', b)
    {
      GrowArena(pg, h, d, a, b);
    }
    forall b, c | b in h'.arenas && c in h'.arenas && b != c
      ensures Apart(h', b, c)
    {
      assert b in h.arenas ==> ArenaOk(pg, h, b);
      assert c in h.arenas ==> ArenaOk(pg, h, c);
      assert b in h.arenas && c in h.arenas ==> Apart(h, b, c);
    }
    forall e | 0 <= e < |SIZES|
      ensures ListOk(h', e)
    {
      GrowList(h, d, a, e);
    }
    forall s
      ensures s in live <==> InUse(h', s)
    {
      GrowUse(h, d, a, s);
    }
  }

  lemma GrowArena(pg: set<nat>, h: Heap, d: nat, a: nat, b: nat)
    requires d < |SIZES| == |h.freeLists| && a !in h.arenas && (b in h.arenas ==> ArenaOk(pg, h, b))
    requires a > 0 && a % PGSIZE == 0 && (b in h.arenas || b == a) && ListOk(h, d)
    ensures ArenaOk(pg + {PgNo(a)}, Grown(h, d, a), b)
  {
    var free := FreeList(h, d) + Slots(a, PerArena(d));
    if b == a {
      assert forall i :: 0 <= i < PerArena(d) ==> free[|FreeList(h, d)| + i] == Slot(a, i);
      FullSet(FreeOf(free, a, PerArena(d)), PerArena(d));
      assert Span(PgNo(a), 1) <= {PgNo(a)};
    } else if h.arenas[b].Small? {
      var n := PerArena(h.arenas[b].d);
      assert FreeOf(free, b, n) == FreeOf(FreeList(h, d), b, n);
    }
  }

  lemma GrowList(h: Heap, d: nat, a: nat, e: nat)
    requires d < |SIZES| == |h.freeLists| && a !in h.arenas && e < |SIZES| && ListOk(h, e)
    ensures ListOk(Grown(h, d, a), e)
  {
    var h' := Grown(h, d, a);
    forall s | s in FreeList(h', e)
      ensures FreeOk(h', e, s)
    {
      assert s in FreeList(h, e) ==> FreeOk(h, e, s);
    }
    var old_ := FreeList(h, e);
    assert forall i :: 0 <= i < |old_| ==> FreeOk(h, e, old_[i]);
  }

  lemma GrowUse(h: Heap, d: nat, a: nat, s: Slot)
    requires d < |SIZES| == |h.freeLists| && a !in h.arenas
    ensures InUse(Grown(h, d, a), s) <==> InUse(h, s)
  {
    var free := FreeList(h, d) + Slots(a, PerArena(d));
    if s.arena == a && s.idx < PerArena(d) {
      assert free[|FreeList(h, d)| + s.idx] == s;
    }
  }

  /** A set of all the numbers below `n` has `n` elements, and no other set of them does. */
  lemma {:induction false} FullSet(s: set<nat>, n: nat)
    requires forall i :: i in s ==> i < n
    ensures |s| <= n
    ensures |s| == n <==> forall i :: 0 <= i < n ==> i in s
  {
    if n > 0 {
      FullSet(s - {n - 1}, n - 1);
    }
  }

  function Count(h: Heap, a: nat): nat {
    if a in h.arenas && h.arenas[a].Small? then h.arenas[a].freeCnt else 0
  }

  /** A block goes to the front of its free list. */
  function Pushed(h: Heap, d: nat, s: Slot): Heap {
    SetArena(SetFree(h, d, [s] + FreeList(h, d)), s.arena, Small(d, Count(h, s.arena) + 1))
  }

  /** The block at the front of a free list is taken. */
  function Popped(h: Heap, d: nat): Heap {
    var free := FreeList(h, d);
    if free == [] then h
    else
      var cnt := Count(h, free[0].arena);
      SetArena(SetFree(h, d, free[1..]), free[0].arena, Small(d, if cnt > 0 then cnt - 1 else 0))
  }

  /** Slot `s` of a small arena of descriptor `d` is not on the free list. */
  ghost predicate Takeable(h: Heap, d: nat, s: Slot) {
    && d < |SIZES| == |h.freeLists| && s.arena in h.arenas && h.arenas[s.arena].Small? && h.arenas[s.arena].d == d
    && s.idx < PerArena(d) && s !in FreeList(h, d)
  }

  lemma PushFreeOf(free: seq<Slot>, s: Slot, b: nat, n: nat)
    requires s !in free
    ensures b != s.arena ==> FreeOf([s] + free, b, n) == FreeOf(free, b, n)
    ensures b == s.arena && s.idx < n ==> |FreeOf([s] + free, b, n)| == |FreeOf(free, b, n)| + 1
  {
    if b == s.arena && s.idx < n {
      assert FreeOf([s] + free, b, n) == FreeOf(free, b, n) + {s.idx};
      assert s.idx !in FreeOf(free, b, n);
    }
  }

  lemma PushArena(pg: set<nat>, h: Heap, d: nat, s: Slot, b: nat)
    requires Takeable(h, d, s) && b in h.arenas
    ensures ArenaOk(pg, Pushed(h, d, s), b) <==> ArenaOk(pg, h, b)
  {
    hide FreeOf, Span;
    if h.arenas[b].Small? {
      PushFreeOf(FreeList(h, d), s, b, PerArena(h.arenas[b].d));
    }
  }

  lemma PushList(h: Heap, d: nat, s: Slot, e: nat)
    requires Takeable(h, d, s) && e < |SIZES|
    ensures ListOk(Pushed(h, d, s), e) <==> ListOk(h, e)
  {
    var h' := Pushed(h, d, s);
    assert forall t :: FreeOk(h', e, t) <==> FreeOk(h, e, t);
    if e == d {
      NoDupFront(s, FreeList(h, d));
      hide NoDup;
    }
  }

  lemma PushUse(h: Heap, d: nat, s: Slot, t: Slot)
    requires Takeable(h, d, s)
    ensures InUse(Pushed(h, d, s), t) <==> InUse(h, t) && t != s
    ensures InUse(h, s)
  {
  }

  lemma PushApart(h: Heap, d: nat, s: Slot, b: nat, c: nat)
    requires Takeable(h, d, s) && b in h.arenas && c in h.arenas
    ensures Apart(Pushed(h, d, s), b, c) <==> Apart(h, b, c)
  {
  }

  lemma PushShape(h: Heap, d: nat, s: Slot)
    requires Takeable(h, d, s)
    ensures
      var h' := Pushed(h, d, s);
      && h'.arenas.Keys == h.arenas.Keys && |h'.freeLists| == |h.freeLists|
      && (forall a :: a in h.arenas ==> Size(h'.arenas[a]) == Size(h.arenas[a]))
  {
  }

  lemma PushKeeps(pg: set<nat>, h: Heap, live: map<Slot, nat>, d: nat, s: Slot)
    requires Consistent(pg, h, live) && Takeable(h, d, s)
    ensures Consistent(pg, Pushed(h, d, s), live - {s})
  {
    hide ArenaOk, ListOk, InUse, Apart, Takeable, Size;
    var h' := Pushed(h, d, s);
    PushShape(h, d, s);
    hide Pushed;
    forall b | b in h'.arenas
      ensures ArenaOk(pg, h', b)
    {
      PushArena(pg, h, d, s, b);
    }
    forall b, c | b in h'.arenas && c in h'.arenas && b != c
      ensures Apart(h', b, c)
    {
      PushApart(h, d, s, b, c);
    }
    forall e | 0 <= e < |SIZES|
      ensures ListOk(h', e)
    {
      PushList(h, d, s, e);
    }
    forall t
      ensures t in live - {s} <==> InUse(h', t)
    {
      PushUse(h, d, s, t);
    }
  }

  /** Taking a block undoes pushing it. */
  lemma PopIsUnpush(pg: set<nat>, h: Heap, live: map<Slot, nat>, d: nat)
    requires Consistent(pg, h, live) && d < |SIZES| && FreeList(h, d) != []
    ensures
      var s, h' := FreeList(h, d)[0], Popped(h, d);
      Takeable(h', d, s) && Pushed(h', d, s) == h
  {
    var free := FreeList(h, d);
    var s := free[0];
    assert ListOk(h, d) && s in free && FreeOk(h, d, s) && ArenaOk(pg, h, s.arena);
    assert s.idx in FreeOf(free, s.arena, PerArena(d));
    assert [s] + free[1..] == free;
    var h' := Popped(h, d);
    assert Pushed(h', d, s).freeLists == h.freeLists;
    assert Pushed(h', d, s).arenas == h.arenas;
  }

  lemma PopKeeps(pg: set<nat>, h: Heap, live: map<Slot, nat>, d: nat, size: nat)
    requires Consistent(pg, h, live) && d < |SIZES| && FreeList(h, d) != [] && size <= SizeOf(d)
    ensures var s := FreeList(h, d)[0]; s !in live && Consistent(pg, Popped(h, d), live[s := size])
  {
    var s, h' := FreeList(h, d)[0], Popped(h, d);
    PopIsUnpush(pg, h, live, d);
    assert Size(h'.arenas[s.arena]) == SizeOf(d);
    PushUse(h', d, s, s);
    assert !InUse(h, s);
    hide ArenaOk, ListOk, InUse, Apart, Takeable, Size, Popped;
    PushShape(h', d, s);
    hide Pushed;
    forall b | b in h'.arenas
      ensures ArenaOk(pg, h', b)
    {
      PushArena(pg, h', d, s, b);
    }
    forall b, c | b in h'.arenas && c in h'.arenas && b != c
      ensures Apart(h', b, c)
    {
      PushApart(h', d, s, b, c);
    }
    forall e | 0 <= e < |SIZES|
      ensures ListOk(h', e)
    {
      PushList(h', d, s, e);
    }
    forall t
      ensures t in live[s := size] <==> InUse(h', t)
    {
      PushUse(h', d, s, t);
    }
  }

  // ---------- Arenas that come and go as a whole ----------

  /** Arena `a` and its blocks are gone. */
  ghost function Dropped(h: Heap, d: nat, a: nat, free: seq<Slot>): Heap {
    SetFree(h, d, free).(arenas := h.arenas - {a})
  }

  /** `free` is what is left of a free list without the blocks of `a`. */
  ghost predicate LeftOf(free: seq<Slot>, all: seq<Slot>, a: nat) {
    NoDup(free) && forall s :: s in free <==> s in all && s.arena != a
  }

  lemma DropKeeps(pg: set<nat>, h: Heap, live: map<Slot, nat>, d: nat, a: nat, free: seq<Slot>)
    requires Consistent(pg, h, live) && d < |SIZES| && a in h.arenas && h.arenas[a] == Small(d, PerArena(d))
    requires LeftOf(free, FreeList(h, d), a)
    ensures Consistent(pg - {PgNo(a)}, Dropped(h, d, a, free), live)
    ensures forall s :: s in live ==> s.arena != a
  {
    var h', pg' := Dropped(h, d, a, free), pg - {PgNo(a)};
    assert ArenaOk(pg, h, a);
    FullSet(FreeOf(FreeList(h, d), a, PerArena(d)), PerArena(d));
    forall s
      ensures (s in live <==> InUse(h', s)) && (s in live ==> s.arena != a)
    {
      assert s in live <==> InUse(h, s);
      assert s.arena == a && s.idx < PerArena(d) ==> s.idx in FreeOf(FreeList(h, d), a, PerArena(d));
    }
    forall b | b in h'.arenas
      ensures ArenaOk(pg', h', b)
    {
      assert ArenaOk(pg, h, b) && Apart(h, b, a);
      DropArena(pg, h, d, a, free, b);
    }
    forall b, c | b in h'.arenas && c in h'.arenas && b != c
      ensures Apart(h', b, c)
    {
      assert Apart(h, b, c);
    }
    forall e | 0 <= e < |SIZES|
      ensures ListOk(h', e)
    {
      assert ListOk(h, e);
      DropList(h, d, a, free, e);
    }
  }

  lemma DropArena(pg: set<nat>, h: Heap, d: nat, a: nat, free: seq<Slot>, b: nat)
    requires d < |SIZES| == |h.freeLists| && a in h.arenas && b in h.arenas && b != a && Pages(h.arenas[a]) > 0
    requires ArenaOk(pg, h, b) && Apart(h, b, a) && LeftOf(free, FreeList(h, d), a)
    ensures ArenaOk(pg - {PgNo(a)}, Dropped(h, d, a, free), b)
  {
    assert PgNo(a) in Span(PgNo(a), Pages(h.arenas[a]));
    if h.arenas[b].Small? && h.arenas[b].d == d {
      assert FreeOf(free, b, PerArena(d)) == FreeOf(FreeList(h, d), b, PerArena(d));
    }
  }

  lemma DropList(h: Heap, d: nat, a: nat, free: seq<Slot>, e: nat)
    requires d < |SIZES| == |h.freeLists| && e < |SIZES| && a in h.arenas && h.arenas[a].Small? && h.arenas[a].d == d
    requires ListOk(h, e) && LeftOf(free, FreeList(h, d), a)
    ensures ListOk(Dropped(h, d, a, free), e)
  {
    var h' := Dropped(h, d, a, free);
    forall s | s in FreeList(h', e)
      ensures FreeOk(h', e, s)
    {
      assert s in FreeList(h, e) && FreeOk(h, e, s);
    }
  }

  lemma BigKeeps(pg: set<nat>, h: Heap, live: map<Slot, nat>, a: nat, cnt: nat, size: nat)
    requires Consistent(pg, h, live) && cnt > 0 && a > 0 && a % PGSIZE == 0 && Span(PgNo(a), cnt) !! pg
    requires size + ARENA_HEADER <= cnt * PGSIZE
    ensures Slot(a, 0) !in live
    ensures Consistent(pg + Span(PgNo(a), cnt), SetArena(h, a, Big(cnt)), live[Slot(a, 0) := size])
  {
    var h', pg' := SetArena(h, a, Big(cnt)), pg + Span(PgNo(a), cnt);
    assert PgNo(a) in Span(PgNo(a), cnt);
    assert a !in h.arenas by {
      assert a in h.arenas ==> ArenaOk(pg, h, a) && PgNo(a) in Span(PgNo(a), Pages(h.arenas[a]));
    }
    assert !InUse(h, Slot(a, 0));
    forall b | b in h'.arenas
      ensures ArenaOk(pg', h', b)
    {
      assert b in h.arenas ==> ArenaOk(pg, h, b);
    }
    forall b, c | b in h'.arenas && c in h'.arenas && b != c
      ensures Apart(h', b, c)
    {
      assert b in h.arenas ==> ArenaOk(pg, h, b);
      assert c in h.arenas ==> ArenaOk(pg, h, c);
      assert b in h.arenas && c in h.arenas ==> Apart(h, b, c);
    }
    forall e | 0 <= e < |SIZES|
      ensures ListOk(h', e)
    {
      assert ListOk(h, e);
      assert forall s :: s in FreeList(h, e) ==> FreeOk(h, e, s);
    }
    forall s
      ensures s in live[Slot(a, 0) := size] <==> InUse(h', s)
    {
      assert s in live <==> InUse(h, s);
    }
  }

  lemma BigDropKeeps(pg: set<nat>, h: Heap, live: map<Slot, nat>, a: nat)
    requires Consistent(pg, h, live) && a in h.arenas && h.arenas[a].Big?
    ensures Consistent(pg - Span(PgNo(a), h.arenas[a].pageCnt), h.(arenas := h.arenas - {a}), live - {Slot(a, 0)})
  {
    var cnt := h.arenas[a].pageCnt;
    var h', pg' := h.(arenas := h.arenas - {a}), pg - Span(PgNo(a), cnt);
    forall b | b in h'.arenas
      ensures ArenaOk(pg', h', b)
    {
      assert ArenaOk(pg, h, b) && Apart(h, b, a);
    }
    forall b, c | b in h'.arenas && c in h'.arenas && b != c
      ensures Apart(h', b, c)
    {
      assert Apart(h, b, c);
    }
    forall e | 0 <= e < |SIZES|
      ensures ListOk(h', e)
    {
      assert ListOk(h, e);
      assert forall s :: s in FreeList(h, e) ==> FreeOk(h, e, s);
    }
    forall s
      ensures s in live - {Slot(a, 0)} <==> InUse(h', s)
    {
      assert s in live <==> InUse(h, s);
    }
  }

  // ---------- Arenas that have a free and a used block ----------

  ghost predicate NoIdleBut(h: Heap, a: nat) {
    forall b :: b in h.arenas && h.arenas[b].Small? && b != a ==> h.arenas[b].freeCnt < PerArena(h.arenas[b].d)
  }

  lemma PopNoIdle(pg: set<nat>, h: Heap, live: map<Slot, nat>, d: nat)
    requires Consistent(pg, h, live) && d < |SIZES| && FreeList(h, d) != [] && NoIdleBut(h, FreeList(h, d)[0].arena)
    ensures NoIdle(Popped(h, d))
  {
    var free := FreeList(h, d);
    var s := free[0];
    assert ListOk(h, d) && s in free && FreeOk(h, d, s) && ArenaOk(pg, h, s.arena);
    FullSet(FreeOf(free, s.arena, PerArena(d)), PerArena(d));
  }

  lemma GrowNoIdle(h: Heap, d: nat, a: nat)
    requires NoIdle(h) && d < |SIZES| == |h.freeLists| && FreeList(h, d) == []
    ensures NoIdleBut(Grown(h, d, a), a) && FreeList(Grown(h, d, a), d) != []
    ensures FreeList(Grown(h, d, a), d)[0].arena == a
  {
  }

  /** Freeing a block brings the count of its arena to at most the number of its blocks. */
  lemma PushCount(pg: set<nat>, h: Heap, live: map<Slot, nat>, d: nat, s: Slot)
    requires Consistent(pg, h, live) && NoIdle(h) && Takeable(h, d, s)
    ensures var h' := Pushed(h, d, s); NoIdleBut(h', s.arena) && h'.arenas[s.arena].freeCnt <= PerArena(d)
  {
  }

  // ---------- Addresses and memory ----------

  type Memory = nat -> bv8

  /** block_to_arena(): a block's address leads back to its arena and its place there. */
  lemma AddressLeadsBack(ar: Arena, s: Slot)
    requires s.arena % PGSIZE == 0 && HasSlot(ar, s.idx)
    ensures
      var p := AddrOf(ar, s);
      && p - p % PGSIZE == s.arena && p % PGSIZE >= ARENA_HEADER
      && (ar.Small? ==>
            && (p % PGSIZE - ARENA_HEADER) % SizeOf(ar.d) == 0
            && (p % PGSIZE - ARENA_HEADER) / SizeOf(ar.d) == s.idx)
      && (ar.Big? ==> p % PGSIZE == ARENA_HEADER)
  {
    if ar.Small? {
      Times(s.idx, PerArena(ar.d), SizeOf(ar.d));
      var ofs := ARENA_HEADER + s.idx * SizeOf(ar.d);
      DivisionUnique(s.arena + ofs, PGSIZE, s.arena / PGSIZE, ofs);
      DivisionUnique(s.idx * SizeOf(ar.d), SizeOf(ar.d), s.idx, 0);
    }
  }

  /** A byte the allocator uses itself: of an arena's header, or of a free block. */
  ghost predicate OwnByte(h: Heap, x: nat) {
    || (exists a :: a in h.arenas && a <= x < a + ARENA_HEADER)
    || (exists d, s :: 0 <= d < |SIZES| && s in FreeList(h, d) && s.arena in h.arenas
         && ByteOf(h.arenas[s.arena], s, x))
  }

  /** The allocator's own bytes are not in any block in use. */
  lemma LiveNotOwn(pg: set<nat>, h: Heap, live: map<Slot, nat>, s: Slot, x: nat)
    requires Consistent(pg, h, live) && s in live && ByteOf(h.arenas[s.arena], s, x)
    ensures !OwnByte(h, x)
  {
    assert InUse(h, s) && ArenaOk(pg, h, s.arena);
    BlockInArena(h.arenas[s.arena], s, x);
    forall a | a in h.arenas
      ensures !(a <= x < a + ARENA_HEADER)
    {
      if a != s.arena {
        assert ArenaOk(pg, h, a) && Apart(h, s.arena, a);
        ArenasApart(h, s.arena, a, x);
      }
    }
    forall d, t | 0 <= d < |SIZES| && t in FreeList(h, d) && t.arena in h.arenas
      ensures !ByteOf(h.arenas[t.arena], t, x)
    {
      assert ListOk(h, d) && FreeOk(h, d, t) && ArenaOk(pg, h, t.arena);
      if t.arena == s.arena {
        SlotsApart(h.arenas[s.arena], s, t, x);
      } else {
        assert Apart(h, s.arena, t.arena);
        ArenasApart(h, s.arena, t.arena, x);
        BlockInArena(h.arenas[t.arena], t, x);
      }
    }
  }

  /** Blocks `keep` are where they were, and hold what they held. */
  ghost predicate Undisturbed(h: Heap, m: Memory, h': Heap, m': Memory, keep: set<Slot>) {
    forall s :: s in keep ==> BlockKept(h, m, h', m', s)
  }

  ghost predicate BlockKept(h: Heap, m: Memory, h': Heap, m': Memory, s: Slot) {
    && s.arena in h.arenas && s.arena in h'.arenas && Size(h'.arenas[s.arena]) == Size(h.arenas[s.arena])
    && (forall x :: ByteOf(h.arenas[s.arena], s, x) ==> m'(x) == m(x))
  }

  lemma UndisturbedTrans(h: Heap, m: Memory, h1: Heap, m1: Memory, h2: Heap, m2: Memory, keep: set<Slot>)
    requires Undisturbed(h, m, h1, m1, keep) && Undisturbed(h1, m1, h2, m2, keep)
    ensures Undisturbed(h, m, h2, m2, keep)
  {
    forall s | s in keep
      ensures BlockKept(h, m, h2, m2, s)
    {
      assert BlockKept(h, m, h1, m1, s) && BlockKept(h1, m1, h2, m2, s);
      assert forall x :: ByteOf(h.arenas[s.arena], s, x) <==> ByteOf(h1.arenas[s.arena], s, x);
    }
  }

  /** Memory outside the allocator's own bytes. */
  ghost predicate WroteOwn(h: Heap, m: Memory, m': Memory) {
    forall x :: !OwnByte(h, x) ==> m'(x) == m(x)
  }

  lemma OwnWritesKeep(pg: set<nat>, h: Heap, live: map<Slot, nat>, m: Memory, m': Memory)
    requires Consistent(pg, h, live) && WroteOwn(h, m, m')
    ensures Undisturbed(h, m, h, m', live.Keys)
  {
    forall s | s in live
      ensures BlockKept(h, m, h, m', s)
    {
      assert InUse(h, s);
      forall x | ByteOf(h.arenas[s.arena], s, x)
        ensures m'(x) == m(x)
      {
        LiveNotOwn(pg, h, live, s, x);
      }
    }
  }

  ghost function Filled(m: Memory, a: nat, cnt: nat): Memory {
    (x: nat) => if a <= x < a + cnt then 0xcc else m(x)
  }

  /** Clearing the pages of an arena does not reach a block of another arena. */
  lemma FilledKeeps(pg: set<nat>, h: Heap, live: map<Slot, nat>, m: Memory, a: nat, keep: set<Slot>)
    requires Consistent(pg, h, live) && a in h.arenas && keep <= live.Keys && forall s :: s in keep ==> s.arena != a
    ensures Undisturbed(h, m, h.(arenas := h.arenas - {a}), Filled(m, a, Pages(h.arenas[a]) * PGSIZE), keep)
  {
    var m' := Filled(m, a, Pages(h.arenas[a]) * PGSIZE);
    forall s | s in keep
      ensures BlockKept(h, m, h.(arenas := h.arenas - {a}), m', s)
    {
      assert InUse(h, s) && ArenaOk(pg, h, s.arena) && ArenaOk(pg, h, a) && Apart(h, s.arena, a);
      forall x | ByteOf(h.arenas[s.arena], s, x)
        ensures m'(x) == m(x)
      {
        BlockInArena(h.arenas[s.arena], s, x);
        ArenasApart(h, s.arena, a, x);
      }
    }
  }

  // ---------- What a step does to the blocks in use ----------

  lemma SameBlocks(pg: set<nat>, h: Heap, live: map<Slot, nat>, h': Heap, m: Memory)
    requires Consistent(pg, h, live)
    requires forall a :: a in h.arenas ==> a in h'.arenas && Size(h'.arenas[a]) == Size(h.arenas[a])
    ensures Undisturbed(h, m, h', m, live.Keys)
  {
    forall s | s in live
      ensures BlockKept(h, m, h', m, s)
    {
      assert InUse(h, s);
    }
  }

  lemma GrowSizes(h: Heap, d: nat, a: nat)
    requires a !in h.arenas
    ensures forall b :: b in h.arenas ==>
      b in Grown(h, d, a).arenas && Size(Grown(h, d, a).arenas[b]) == Size(h.arenas[b])
  {
  }

  lemma PopSizes(pg: set<nat>, h: Heap, live: map<Slot, nat>, d: nat)
    requires Consistent(pg, h, live) && d < |SIZES| && FreeList(h, d) != []
    ensures forall b :: b in h.arenas ==> b in Popped(h, d).arenas && Size(Popped(h, d).arenas[b]) == Size(h.arenas[b])
  {
    assert ListOk(h, d) && FreeList(h, d)[0] in FreeList(h, d) && FreeOk(h, d, FreeList(h, d)[0]);
  }

  /** Fewer blocks are undisturbed when more are. */
  lemma UndisturbedLess(h: Heap, m: Memory, h': Heap, m': Memory, keep: set<Slot>, fewer: set<Slot>)
    requires Undisturbed(h, m, h', m', keep) && fewer <= keep
    ensures Undisturbed(h, m, h', m', fewer)
  {
  }

  lemma LiveInUse(pg: set<nat>, h: Heap, live: map<Slot, nat>, s: Slot)
    requires Consistent(pg, h, live) && s in live
    ensures InUse(h, s) && s.arena in h.arenas && ArenaOk(pg, h, s.arena)
  {
  }

  lemma OnePage(p: nat)
    ensures Span(p, 1) == {p}
  {
  }

  /** A page that was not in use is not an arena's. */
  lemma FreshArena(pg: set<nat>, h: Heap, live: map<Slot, nat>, a: nat, cnt: nat)
    requires Consistent(pg, h, live) && cnt > 0 && Span(PgNo(a), cnt) !! pg
    ensures a !in h.arenas
  {
    assert PgNo(a) in Span(PgNo(a), cnt);
    assert a in h.arenas ==> ArenaOk(pg, h, a) && PgNo(a) in Span(PgNo(a), Pages(h.arenas[a]));
  }

  lemma BigNoIdle(h: Heap, a: nat, cnt: nat)
    requires NoIdle(h)
    ensures NoIdle(SetArena(h, a, Big(cnt)))
  {
  }

  lemma FrontIsBusy(pg: set<nat>, h: Heap, live: map<Slot, nat>, d: nat)
    requires Consistent(pg, h, live) && NoIdle(h) && d < |SIZES|
    ensures |h.freeLists| == |SIZES|
    ensures FreeList(h, d) != [] ==> NoIdleBut(h, FreeList(h, d)[0].arena)
  {
  }

  lemma GrowAll(pg: set<nat>, h: Heap, live: map<Slot, nat>, d: nat, a: nat, m: Memory)
    requires Consistent(pg, h, live) && NoIdle(h) && d < |SIZES| && FreeList(h, d) == []
    requires a > 0 && a % PGSIZE == 0 && Span(PgNo(a), 1) !! pg
    ensures
      var h' := Grown(h, d, a);
      && Consistent(pg + Span(PgNo(a), 1), h', live) && Undisturbed(h, m, h', m, live.Keys)
      && NoIdleBut(h', a) && FreeList(h', d) != [] && FreeList(h', d)[0].arena == a
  {
    hide Consistent, NoIdle, NoIdleBut, Grown, Undisturbed, FreeList;
    OnePage(PgNo(a));
    FrontIsBusy(pg, h, live, d);
    GrowKeeps(pg, h, live, d, a);
    GrowNoIdle(h, d, a);
    FreshArena(pg, h, live, a, 1);
    GrowSizes(h, d, a);
    SameBlocks(pg, h, live, Grown(h, d, a), m);
  }

  lemma BigAll(pg: set<nat>, h: Heap, live: map<Slot, nat>, a: nat, cnt: nat, size: nat, m: Memory)
    requires Consistent(pg, h, live) && NoIdle(h) && cnt > 0 && a > 0 && a % PGSIZE == 0 && Span(PgNo(a), cnt) !! pg
    requires size + ARENA_HEADER <= cnt * PGSIZE
    ensures Slot(a, 0) !in live
    ensures
      var h' := SetArena(h, a, Big(cnt));
      && Consistent(pg + Span(PgNo(a), cnt), h', live[Slot(a, 0) := size])
      && NoIdle(h') && Undisturbed(h, m, h', m, live.Keys) && InUse(h', Slot(a, 0))
  {
    hide Consistent, NoIdle, Undisturbed;
    BigKeeps(pg, h, live, a, cnt, size);
    FreshArena(pg, h, live, a, cnt);
    BigNoIdle(h, a, cnt);
    SameBlocks(pg, h, live, SetArena(h, a, Big(cnt)), m);
  }

  // ---------- Taking an arena's blocks off their free list ----------

  function Minus(free: seq<Slot>, s: Slot): seq<Slot> {
    if free == [] then [] else if free[0] == s then free[1..] else [free[0]] + Minus(free[1..], s)
  }

  lemma {:induction false} MinusIn(free: seq<Slot>, s: Slot)
    requires NoDup(free)
    ensures forall t :: t in Minus(free, s) <==> t in free && t != s
  {
    if free != [] {
      assert free == [free[0]] + free[1..];
      MinusIn(free[1..], s);
    }
  }

  lemma {:induction false} MinusNoDup(free: seq<Slot>, s: Slot)
    requires NoDup(free)
    ensures NoDup(Minus(free, s))
  {
    if free != [] && free[0] != s {
      MinusNoDup(free[1..], s);
      MinusIn(free[1..], s);
      assert free[0] !in free[1..];
      NoDupFront(free[0], Minus(free[1..], s));
    }
  }

  /** The first `n` blocks of arena `a` are off the list. */
  ghost predicate LeftSoFar(free: seq<Slot>, all: seq<Slot>, a: nat, n: nat) {
    NoDup(free) && forall s :: s in free <==> s in all && !(s.arena == a && s.idx < n)
  }

  lemma OneLess(free: seq<Slot>, all: seq<Slot>, a: nat, n: nat)
    requires LeftSoFar(free, all, a, n)
    ensures LeftSoFar(Minus(free, Slot(a, n)), all, a, n + 1)
  {
    MinusIn(free, Slot(a, n));
    MinusNoDup(free, Slot(a, n));
  }

  lemma AllOff(h: Heap, d: nat, a: nat, free: seq<Slot>)
    requires ListOk(h, d) && LeftSoFar(free, FreeList(h, d), a, PerArena(d))
    ensures LeftOf(free, FreeList(h, d), a)
  {
    forall s | s in FreeList(h, d)
      ensures s.idx < PerArena(d)
    {
      assert FreeOk(h, d, s);
    }
  }

  // ---------- Freeing ----------

  lemma PushAll(pg: set<nat>, h: Heap, live: map<Slot, nat>, s: Slot, m: Memory)
    requires Consistent(pg, h, live) && NoIdle(h) && s in live && s.arena in h.arenas && h.arenas[s.arena].Small?
    ensures
      var d := h.arenas[s.arena].d;
      var h' := Pushed(h, d, s);
      && Takeable(h, d, s)
      && Consistent(pg, h', live - {s}) && Undisturbed(h, m, h', m, (live - {s}).Keys)
      && NoIdleBut(h', s.arena)
      && s.arena in h'.arenas && h'.arenas[s.arena].Small? && h'.arenas[s.arena].freeCnt <= PerArena(d)
      && ListOk(h', d)
  {
    var d := h.arenas[s.arena].d;
    assert Takeable(h, d, s) by {
      assert InUse(h, s) && ArenaOk(pg, h, s.arena);
    }
    PushShape(h, d, s);
    hide Consistent, NoIdle, NoIdleBut, Undisturbed, Takeable;
    PushKeeps(pg, h, live, d, s);
    PushCount(pg, h, live, d, s);
    SameBlocks(pg, h, live, Pushed(h, d, s), m);
    UndisturbedLess(h, m, Pushed(h, d, s), m, live.Keys, (live - {s}).Keys);
    ListThere(pg, Pushed(h, d, s), live - {s}, d);
  }

  lemma ListThere(pg: set<nat>, h: Heap, live: map<Slot, nat>, d: nat)
    requires Consistent(pg, h, live) && d < |SIZES|
    ensures ListOk(h, d) && |h.freeLists| == |SIZES|
  {
  }

  /** The arena is empty: it goes, and its page is cleared. */
  lemma DropAll(pg: set<nat>, h: Heap, live: map<Slot, nat>, a: nat, free: seq<Slot>, m: Memory)
    requires Consistent(pg, h, live) && NoIdleBut(h, a) && a in h.arenas && h.arenas[a].Small?
    requires var d := h.arenas[a].d; h.arenas[a].freeCnt == PerArena(d) && LeftOf(free, FreeList(h, d), a)
    ensures
      var h' := Dropped(h, h.arenas[a].d, a, free);
      && Consistent(pg - Span(PgNo(a), 1), h', live) && NoIdle(h')
      && Undisturbed(h, m, h', Filled(m, a, PGSIZE), live.Keys)
      && a > 0 && a % PGSIZE == 0 && Span(PgNo(a), 1) <= pg
  {
    var d := h.arenas[a].d;
    assert ArenaOk(pg, h, a);
    OnePage(PgNo(a));
    hide FreeOf, NoDup, Filled;
    DropKeeps(pg, h, live, d, a, free);
    hide Consistent, LeftOf;
    FilledKeeps(pg, h, live, m, a, live.Keys);
    var h1, h' := h.(arenas := h.arenas - {a}), Dropped(h, d, a, free);
    SameArenas(h, m, h1, h', Filled(m, a, PGSIZE), live.Keys);
  }

  lemma SameArenas(h: Heap, m: Memory, h1: Heap, h2: Heap, m': Memory, keep: set<Slot>)
    requires Undisturbed(h, m, h1, m', keep) && h2.arenas == h1.arenas
    ensures Undisturbed(h, m, h2, m', keep)
  {
    forall s | s in keep
      ensures BlockKept(h, m, h2, m', s)
    {
      assert BlockKept(h, m, h1, m', s);
    }
  }

  lemma BigDropAll(pg: set<nat>, h: Heap, live: map<Slot, nat>, s: Slot, m: Memory)
    requires Consistent(pg, h, live) && NoIdle(h) && s in live && s.arena in h.arenas && h.arenas[s.arena].Big?
    ensures
      var a := s.arena;
      var cnt, h' := h.arenas[a].pageCnt, h.(arenas := h.arenas - {a});
      && s == Slot(a, 0) && Consistent(pg - Span(PgNo(a), cnt), h', live - {s}) && NoIdle(h')
      && Undisturbed(h, m, h', Filled(m, a, cnt * PGSIZE), (live - {s}).Keys)
      && a > 0 && a % PGSIZE == 0 && Span(PgNo(a), cnt) <= pg
  {
    assert InUse(h, s) && ArenaOk(pg, h, s.arena);
    forall t | t in live - {s}
      ensures t.arena != s.arena
    {
      assert InUse(h, t);
    }
    BigDropKeeps(pg, h, live, s.arena);
    hide Consistent, Filled;
    FilledKeeps(pg, h, live, m, s.arena, (live - {s}).Keys);
  }

  lemma BusyAgain(h: Heap, a: nat)
    requires NoIdleBut(h, a) && a in h.arenas && h.arenas[a].Small? && h.arenas[a].freeCnt < PerArena(h.arenas[a].d)
    ensures NoIdle(h)
  {
  }

  // ---------- Copying ----------

  ghost function Bytes(m: Memory, p: nat, n: nat): seq<bv8> {
    seq(n, (i: nat) => m(p + i))
  }

  /** memcpy() */
  ghost function Copied(m: Memory, dst: nat, src: nat, n: nat): Memory {
    (x: nat) => if dst <= x < dst + n then m(src + (x - dst)) else m(x)
  }

  lemma CopiedBytes(m: Memory, dst: nat, src: nat, n: nat)
    ensures Bytes(Copied(m, dst, src, n), dst, n) == Bytes(m, src, n)
  {
  }

  /** A copy into a block in use leaves the other blocks alone. */
  lemma CopyKeeps(pg: set<nat>, h: Heap, live: map<Slot, nat>, m: Memory, t: Slot, src: nat, n: nat)
    requires Consistent(pg, h, live) && t in live && t.arena in h.arenas && n <= Size(h.arenas[t.arena])
    ensures Undisturbed(h, m, h, Copied(m, AddrOf(h.arenas[t.arena], t), src, n), live.Keys - {t})
  {
    var m' := Copied(m, AddrOf(h.arenas[t.arena], t), src, n);
    forall s | s in live.Keys - {t}
      ensures BlockKept(h, m, h, m', s)
    {
      assert InUse(h, s);
      forall x | ByteOf(h.arenas[s.arena], s, x)
        ensures m'(x) == m(x)
      {
        LiveBlocksApart(pg, h, live, s, t, x);
      }
    }
  }

  lemma BytesKept(h: Heap, m: Memory, h': Heap, m': Memory, keep: set<Slot>, s: Slot, n: nat)
    requires Undisturbed(h, m, h', m', keep) && s in keep && s.arena in h.arenas && n <= Size(h.arenas[s.arena])
    ensures s.arena in h'.arenas && Size(h'.arenas[s.arena]) == Size(h.arenas[s.arena])
    ensures
      var p := AddrOf(h.arenas[s.arena], s);
      AddrOf(h'.arenas[s.arena], s) == p && Bytes(m', p, n) == Bytes(m, p, n)
  {
    assert BlockKept(h, m, h', m', s);
    var p := AddrOf(h.arenas[s.arena], s);
    forall i | 0 <= i < n
      ensures Bytes(m', p, n)[i] == Bytes(m, p, n)[i]
    {
      assert ByteOf(h.arenas[s.arena], s, p + i);
    }
  }

  lemma LiveFits(pg: set<nat>, h: Heap, live: map<Slot, nat>, s: Slot)
    requires Consistent(pg, h, live) && s in live
    ensures s.arena in h.arenas && live[s] <= Size(h.arenas[s.arena])
  {
    assert InUse(h, s);
  }
}
