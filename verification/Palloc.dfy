/**
 The page allocator: two pools of pages, each with a bitmap of used pages kept in the
 pages just below it.
 */
module Pallocs {

  import opened Options
  import opened Bitmaps

  const PGSIZE: nat := 4096
  const PHYS_BASE: nat := 0xc0000000
  /** sizeof (struct bitmap) */
  const BITMAP_HEADER: nat := 8

  function PgNo(va: nat): nat {
    va / PGSIZE
  }

  predicate Between(p: nat, cnt: nat, i: nat) {
    p <= i < p + cnt
  }

  /** The numbers of `cnt` pages from page `p`. */
  ghost function Span(p: nat, cnt: nat): set<nat> {
    set i: nat | i < p + cnt && Between(p, cnt, i)
  }

  /** Pages taken by the bitmap of a pool of `pageCnt` pages. */
  function BitmapPages(pageCnt: nat): nat {
    (BITMAP_HEADER + ByteCnt(pageCnt) + PGSIZE - 1) / PGSIZE
  }

  lemma PagesAfter(start: nat, n: nat)
    requires start % PGSIZE == 0
    ensures (start + n * PGSIZE) % PGSIZE == 0 && PgNo(start + n * PGSIZE) == PgNo(start) + n
  {
  }

  class Pool {
    const base: nat
    const used: Bitmap

    /** init_pool(), for memory large enough to hold the bitmap. */
    constructor (start: nat, pageCnt: nat)
      requires start > 0 && start % PGSIZE == 0 && BitmapPages(pageCnt) <= pageCnt
      ensures Valid() && Live() == {} && fresh(used) && fresh(used.words)
      ensures First() == PgNo(start) + BitmapPages(pageCnt) && End() == PgNo(start) + pageCnt
    {
      hide BitmapPages, PgNo;
      var bmPages := BitmapPages(pageCnt);
      PagesAfter(start, bmPages);
      used := new Bitmap(pageCnt - bmPages);
      base := start + bmPages * PGSIZE;
    }

    ghost predicate Valid()
      reads this, used, used.words
    {
      used.Valid() && base > 0 && base % PGSIZE == 0
    }

    function First(): nat {
      PgNo(base)
    }

    function End(): nat {
      First() + used.bitCnt
    }

    ghost predicate IsLive(p: nat)
      reads used
    {
      First() <= p < End() && p - First() < |used.bits| && used.bits[p - First()]
    }

    /** The pages in use. */
    ghost function Live(): set<nat>
      reads used
    {
      set p: nat | p < End() && IsLive(p)
    }

    /** Takes the lowest `cnt` free pages in a row. */
    method Get(cnt: nat) returns (r: Option<nat>)
      requires Valid()
      modifies used`bits, used.words
      ensures Valid()
      ensures r.Some? ==>
        && r.value > 0 && r.value % PGSIZE == 0 && cnt > 0
        && First() <= PgNo(r.value) && PgNo(r.value) + cnt <= End()
        && Span(PgNo(r.value), cnt) !! old(Live())
        && Live() == old(Live()) + Span(PgNo(r.value), cnt)
        && (forall p :: First() <= p < PgNo(r.value) ==> !(Span(p, cnt) !! old(Live())))
      ensures r.None? ==> Live() == old(Live())
      ensures r.None? ==> cnt == 0 || forall p :: First() <= p && p + cnt <= End() ==> !(Span(p, cnt) !! Live())
    {
      if cnt == 0 {
        return None;
      }
      ghost var before := used.bits;
      forall p | First() <= p && p + cnt <= End()
        ensures Span(p, cnt) !! Live() ==> AllAre(before, p - First(), cnt, false)
      {
        FreeRun(p, cnt);
      }
      var idx := used.ScanAndFlip(0, cnt, false);
      if idx.Some? {
        r := Some(base + PGSIZE * idx.value);
        assert PgNo(r.value) == First() + idx.value;
      } else {
        r := None;
      }
    }

    lemma FreeRun(p: nat, cnt: nat)
      requires Valid() && First() <= p && p + cnt <= End()
      ensures Span(p, cnt) !! Live() ==> AllAre(used.bits, p - First(), cnt, false)
    {
      forall i | p - First() <= i < p - First() + cnt && Span(p, cnt) !! Live()
        ensures !used.bits[i]
      {
        assert i + First() in Span(p, cnt);
        assert !IsLive(i + First());
      }
    }

    /** Gives back `cnt` pages from page `p`. */
    method Free(p: nat, cnt: nat)
      requires Valid() && First() <= p && p + cnt <= End() && Span(p, cnt) <= Live()
      modifies used`bits, used.words
      ensures Valid() && Live() == old(Live()) - Span(p, cnt)
    {
      used.SetMultiple(p - First(), cnt, false);
    }
  }

  class Palloc {
    const kernel: Pool
    const user: Pool

    /** The pools lie apart: the bitmap of the user pool is between them. */
    ghost predicate Valid()
      reads kernel, user, kernel.used, user.used, kernel.used.words, user.used.words
    {
      && kernel.Valid() && user.Valid()
      && kernel.used != user.used && kernel.used.words != user.used.words
      && kernel.End() < user.First()
    }

    ghost function Live(): set<nat>
      reads kernel.used, user.used
    {
      kernel.Live() + user.Live()
    }

    /** palloc_init(), for enough memory to hold both bitmaps. */
    constructor (ramPages: nat, userPageLimit: nat)
      requires 256 <= ramPages
      requires BitmapPages(UserPages(ramPages, userPageLimit)) <= UserPages(ramPages, userPageLimit)
      requires var k := ramPages - 256 - UserPages(ramPages, userPageLimit); BitmapPages(k) <= k
      ensures Valid() && Live() == {}
      ensures
        var userPages := if (ramPages - 256) / 2 <= userPageLimit then (ramPages - 256) / 2 else userPageLimit;
        && user.End() == 786432 + ramPages && kernel.End() == user.End() - userPages
        && kernel.First() == 786432 + 256 + MapPages(ramPages - 256 - userPages)
        && user.First() == kernel.End() + MapPages(userPages)
      ensures fresh(kernel.used) && fresh(user.used) && fresh(kernel.used.words) && fresh(user.used.words)
    {
      var freeStart := PHYS_BASE + 1024 * 1024;
      assert PgNo(freeStart) == PgNo(PHYS_BASE) + 256 && freeStart % PGSIZE == 0;
      hide BitmapPages, UserPages, PgNo;
      PagesAfter(freeStart, ramPages - 256 - UserPages(ramPages, userPageLimit));
      PoolsAre(ramPages, userPageLimit);
      var userPages := UserPages(ramPages, userPageLimit);
      var kernelPages := ramPages - 256 - userPages;
      kernel := new Pool(freeStart, kernelPages);
      user := new Pool(freeStart + kernelPages * PGSIZE, userPages);
    }

    /** palloc_get_multiple() */
    method GetMultiple(fromUser: bool, cnt: nat) returns (r: Option<nat>)
      requires Valid()
      modifies kernel.used`bits, user.used`bits, kernel.used.words, user.used.words
      ensures Valid()
      ensures r.Some? ==>
        && r.value > 0 && r.value % PGSIZE == 0 && cnt > 0
        && Span(PgNo(r.value), cnt) !! old(Live())
        && Live() == old(Live()) + Span(PgNo(r.value), cnt)
      ensures r.None? ==> Live() == old(Live())
      ensures var pool := if fromUser then user else kernel;
        r.Some? ==>
          && pool.First() <= PgNo(r.value) && PgNo(r.value) + cnt <= pool.End()
          && forall p :: pool.First() <= p < PgNo(r.value) ==> !(Span(p, cnt) !! old(pool.Live()))
      ensures var other := if fromUser then kernel else user; other.Live() == old(other.Live())
      ensures var pool := if fromUser then user else kernel;
        r.None? ==> cnt == 0 || forall p :: pool.First() <= p && p + cnt <= pool.End() ==> !(Span(p, cnt) !! Live())
    {
      var pool := if fromUser then user else kernel;
      r := pool.Get(cnt);
    }

    /** palloc_free_multiple(): finds the pool and the place in it that the pages came from. */
    method FreeMultiple(pages: nat, cnt: nat)
      requires Valid() && pages % PGSIZE == 0
      requires pages == 0 || cnt == 0 || Span(PgNo(pages), cnt) <= Live()
      modifies kernel.used`bits, user.used`bits, kernel.used.words, user.used.words
      ensures Valid()
      ensures Live() == if pages == 0 then old(Live()) else old(Live()) - Span(PgNo(pages), cnt)
    {
      if pages == 0 || cnt == 0 {
        return;
      }
      var p := PgNo(pages);
      OnePool(p, cnt);
      if kernel.First() <= p < kernel.End() {
        kernel.Free(p, cnt);
      } else if user.First() <= p < user.End() {
        user.Free(p, cnt);
      } else {
        assert false;
      }
    }

    /** Pages in use that lie in a row are all from one pool, because there is a gap between the pools. */
    lemma OnePool(p: nat, cnt: nat)
      requires Valid() && cnt > 0 && Span(p, cnt) <= Live()
      ensures
        || (&& kernel.First() <= p && p + cnt <= kernel.End()
            && Span(p, cnt) <= kernel.Live() && Span(p, cnt) !! user.Live())
        || (&& user.First() <= p && p + cnt <= user.End()
            && Span(p, cnt) <= user.Live() && Span(p, cnt) !! kernel.Live())
    {
      assert p in Span(p, cnt) && p + cnt - 1 in Span(p, cnt);
      var gap := kernel.End();
      assert !kernel.IsLive(gap) && !user.IsLive(gap);
      assert gap !in Span(p, cnt);
    }
  }

  /** Pages of 4096 bytes for an 8-byte header and `n` bits in words of 4 bytes. */
  function MapPages(n: nat): nat {
    (8 + (n + 31) / 32 * 4 + 4095) / 4096
  }

  /**
   The user pool gets the lesser of the limit and half of the memory above 1 MB; kernel
   memory starts at page 786432.
   */
  lemma PoolsAre(ramPages: nat, userPageLimit: nat)
    requires 256 <= ramPages
    ensures
      var u := UserPages(ramPages, userPageLimit);
      && u <= userPageLimit && 2 * u <= ramPages - 256 && (u == userPageLimit || 2 * u + 1 >= ramPages - 256)
      && u == (if (ramPages - 256) / 2 <= userPageLimit then (ramPages - 256) / 2 else userPageLimit)
    ensures PgNo(PHYS_BASE) == 786432
    ensures forall n: nat :: BitmapPages(n) == MapPages(n)
  {
  }

  function UserPages(ramPages: nat, userPageLimit: nat): nat
    requires 256 <= ramPages
  {
    var half := (ramPages - 256) / 2;
    if half > userPageLimit then userPageLimit else half
  }
}
