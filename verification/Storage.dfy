/**
 The two services under the inode layer, taken together: sectors read and written
 through the buffer cache, and free sectors handed out by the free map.
 */
module Storages {

  import opened Options
  import opened Division
  import opened Blocks
  import opened Words
  import opened BufferCache
  import opened Bitmaps
  import opened FreeMaps
  import opened InodeLayout
  import opened InodeGrowth
  import opened SectorTaking

  lemma OneFree(used: seq<bool>)
    ensures IsFirstFit(used, 0, 1, false, None) <==> FreeSectors(used) == {}
  {
    assert forall s: nat :: s in FreeSectors(used) <==> s < |used| && !used[s];
    assert forall s: nat :: s in FreeSectors(used) <==> AllAre(used, s, 1, false);
  }

  class Storage {

    const cache: Cache
    const freeMap: FreeMap

    // whether the free map's file can be written, at each try to allocate a sector
    const mapOk: nat -> bool
    var tries: nat

    // the sectors, which of them are in use, and whether the free map has a file
    ghost var contents: seq<Block>
    ghost var used: seq<bool>
    ghost var logged: bool

    ghost const parts: set<object>

    ghost predicate Valid()
      reads this, parts
      ensures Valid() ==> this !in parts && 0 < |contents| == |used| <= NO_SECTOR
    {
      && this !in parts
      && parts == {cache, cache.slots, freeMap, freeMap.used, freeMap.used.words}
      && {cache, cache.slots} !! {freeMap, freeMap.used, freeMap.used.words}
      && cache.Valid() && contents == cache.contents
      && freeMap.Valid() && used == freeMap.used.bits && logged == freeMap.fileOpen
      && 0 < |contents| == |used| <= NO_SECTOR
      && used[0]
    }

    /** What there is to allocate from. */
    ghost function Stock(): Supply
      reads this
    {
      Supply(|FreeSectors(used)|, tries, logged, mapOk)
    }

    /** The next `n` allocations will succeed. */
    ghost predicate CanTake(n: nat)
      reads this
    {
      Enough(Stock(), n)
    }

    /** A freshly formatted device: all sectors but the first two are free. */
    constructor (device: seq<Block>, mapOk: nat -> bool)
      requires 2 <= |device| <= NO_SECTOR
      ensures Valid() && fresh(parts)
      ensures contents == device && used == seq(|device|, i => i < 2) && !logged && this.mapOk == mapOk && tries == 0
    {
      var c := new Cache(device);
      var m := new FreeMap(|device|);
      cache, freeMap := c, m;
      contents, used, logged := c.contents, m.used.bits, false;
      this.mapOk, tries := mapOk, 0;
      parts := {c, c.slots, m, m.used, m.used.words};
    }

    method Read(s: nat) returns (block: Block)
      requires Valid() && s < |contents|
      modifies parts
      ensures Valid()
      ensures block == contents[s]
    {
      block := cache.ReadAt(s);
    }

    method Write(s: nat, block: Block)
      requires Valid() && s < |contents|
      modifies this`contents, parts
      ensures Valid()
      ensures contents == old(contents)[s := block]
    {
      cache.WriteAt(s, block);
      contents := cache.contents;
    }

    /** One free sector, or none: the device is full or the free-map file unwritable. */
    method Allocate() returns (r: Option<nat>)
      requires Valid()
      modifies this`used, this`tries, parts
      ensures Valid()
      ensures r.Some? ==> 0 < r.value < |old(used)| && !old(used)[r.value] && used == old(used)[r.value := true]
      ensures r.None? ==> used == old(used)
      ensures r.Some? <==> old(CanTake(1))
      ensures Stock() == Spend(old(Stock()), 1)
    {
      hide Enough;
      ghost var before := used;
      OneFree(before);
      EnoughForOne(Stock());
      r := freeMap.Allocate(1, mapOk(tries));
      hide IsFirstFit;
      used := freeMap.used.bits;
      tries := tries + 1;
      if r.Some? {
        assert used == before[r.value := true];
        TookOne(before, r.value);
      }
    }

    /** Fills the pointers from `start` up to `stop` with newly allocated, zeroed sectors. */
    method AllocateRange(ptrs: seq<nat>, start: nat, stop: nat) returns (ok: bool, r: seq<nat>)
      requires Valid() && start <= stop <= |ptrs|
      modifies this`contents, this`used, this`tries, parts
      ensures Valid()
      ensures Grew(old(contents), old(used), contents, used, {})
      ensures |r| == |ptrs|
      ensures forall i :: 0 <= i < |r| && !(start <= i < stop) ==> r[i] == ptrs[i]
      ensures forall i :: 0 <= i < |r| ==> r[i] == ptrs[i] || r[i] < |contents|
      ensures ok ==> TakenRun(old(used), contents, used, r[start..stop])
      ensures ok <==> old(CanTake(stop - start))
      ensures Stock() == Spend(old(Stock()), stop - start)
    {
      hide Enough, Spend, FreeSectors;
      ghost var stock := Stock();
      NothingTaken(stock);
      r := ptrs;
      for i := start to stop
        invariant Valid()
        invariant Stock() == Spend(stock, i - start) && Enough(stock, i - start)
        invariant Grew(old(contents), old(used), contents, used, {})
        invariant |r| == |ptrs|
        invariant forall j :: 0 <= j < |r| && !(start <= j < i) ==> r[j] == ptrs[j]
        invariant forall j :: 0 <= j < |r| ==> r[j] == ptrs[j] || r[j] < |contents|
        invariant TakenRun(old(used), contents, used, r[start..i])
      {
        TakeNext(stock, i - start, stop - start);
        var sector := Allocate();
        if sector == None {
          return false, r;
        }
        ghost var run := r[start..i];
        r := r[i := sector.value];
        assert r[start..i + 1] == run + [sector.value];
        Write(sector.value, ZEROS);
      }
      ok := true;
    }

    method ReadIndex(s: nat) returns (ptrs: seq<nat>)
      requires Valid() && s < |contents|
      modifies parts
      ensures Valid()
      ensures AreWords(ptrs)
      ensures forall i :: 0 <= i < INDIRECT_BLOCK_PTRS ==> ptrs[i] == IndexWord(contents, s, i)
    {
      var block := Read(s);
      ptrs := Decode(block);
    }

    method WriteIndex(s: nat, ptrs: seq<nat>)
      requires Valid() && s < |contents| && AreWords(ptrs)
      modifies this`contents, parts
      ensures Valid()
      ensures contents == old(contents)[s := Encode(ptrs)]
      ensures forall i :: 0 <= i < INDIRECT_BLOCK_PTRS ==> IndexWord(contents, s, i) == ptrs[i]
    {
      StoredIndex(contents, s, ptrs);
      hide WordAt, Encode;
      Write(s, Encode(ptrs));
    }

    /**
     Fills the pointers of an index block from `start` up to `stop`; the block is
     written back only if every sector was found.
     */
    method FillIndex(index: nat, start: nat, stop: nat) returns (ok: bool, ghost run: seq<nat>)
      requires Valid() && index < |contents| && used[index]
      requires start <= stop <= INDIRECT_BLOCK_PTRS
      modifies this`contents, this`used, this`tries, parts
      ensures Valid()
      ensures Grew(old(contents), old(used), contents, used, {index})
      ensures !ok ==> contents[index] == old(contents)[index]
      ensures ok ==> |run| == stop - start
      ensures ok ==> TakenRun(old(used), contents, used, run)
      ensures ok ==> forall i :: 0 <= i < INDIRECT_BLOCK_PTRS ==>
        IndexWord(contents, index, i) ==
          if start <= i < stop then run[i - start] else IndexWord(old(contents), index, i)
      ensures ok <==> old(CanTake(stop - start))
      ensures Stock() == Spend(old(Stock()), stop - start)
    {
      hide Enough, Spend, WordAt, Encode;
      var ptrs := ReadIndex(index);
      ok, ptrs := AllocateRange(ptrs, start, stop);
      run := ptrs[start..stop];
      if ok {
        WriteIndex(index, ptrs);
      }
    }

    /** Fills the second-level blocks that growth from `cur` to `new_` blocks visits. */
    method FillSecondLevels(ptrs: seq<nat>, cur: nat, new_: nat) returns (ok: bool, ghost run: seq<nat>)
      requires Valid() && |ptrs| == INDIRECT_BLOCK_PTRS
      requires cur == SINGLE_LIMIT < new_ <= GROWTH_LIMIT
      requires ptrs[0] < |contents| && used[ptrs[0]]
      modifies this`contents, this`used, this`tries, parts
      ensures Valid()
      ensures Grew(old(contents), old(used), contents, used, {ptrs[0]})
      ensures ok ==> |run| == new_ - cur && TakenRun(old(used), contents, used, run)
      ensures ok ==> forall j :: 0 <= j < INDIRECT_BLOCK_PTRS ==>
        IndexWord(contents, ptrs[0], j) == if j < |run| then run[j] else IndexWord(old(contents), ptrs[0], j)
      ensures ok <==> old(CanTake(new_ - cur))
      ensures Stock() == Spend(old(Stock()), new_ - cur)
    {
      hide Enough, Spend, FreeSectors;
      run := [];
      var i, maxFirst := LastFirstLevel(cur) + 1, LastFirstLevel(new_);
      assert i == 0 == maxFirst;
      while i <= maxFirst
        invariant 0 <= i <= 1
        invariant i == 0 ==> contents == old(contents) && used == old(used) && Stock() == old(Stock())
        invariant Valid()
        invariant Grew(old(contents), old(used), contents, used, {ptrs[0]})
        invariant i == 1 ==> |run| == new_ - cur && TakenRun(old(used), contents, used, run)
        invariant i == 1 ==> forall j :: 0 <= j < INDIRECT_BLOCK_PTRS ==>
          IndexWord(contents, ptrs[0], j) == if j < |run| then run[j] else IndexWord(old(contents), ptrs[0], j)
        invariant i == 1 ==> old(CanTake(new_ - cur)) && Stock() == Spend(old(Stock()), new_ - cur)
      {
        ok, run := FillIndex(ptrs[i], Start(cur, i), Stop(new_, i) + 1);
        if !ok {
          return;
        }
        i := i + 1;
      }
      ok := true;
    }

    /** Allocates the second-level block that growth needs, fills it, and hooks it into the doubly indirect block. */
    method ExtendDoubly(doubly: nat, cur: nat, new_: nat) returns (ok: bool, ghost run: seq<nat>)
      requires Valid() && doubly < |contents| && used[doubly]
      requires cur == SINGLE_LIMIT < new_ <= GROWTH_LIMIT
      modifies this`contents, this`used, this`tries, parts
      ensures Valid()
      ensures Grew(old(contents), old(used), contents, used, {doubly})
      ensures !ok ==> contents[doubly] == old(contents)[doubly]
      ensures ok ==> |run| == new_ - cur && TakenRun(old(used), contents, used, run)
      ensures ok ==>
        var second := IndexWord(contents, doubly, 0);
        && IsNew(old(used), used, second) && second !in run && WordsInRange(contents, second)
        && forall i :: 0 <= i < |run| ==> IndexWord(contents, second, i) == run[i]
      ensures ok <==> old(CanTake(1 + (new_ - cur)))
      ensures Stock() == Spend(old(Stock()), 1 + (new_ - cur))
    {
      hide Enough, Spend, FreeSectors, WordAt, WordsInRange;
      ghost var used0 := used;
      TakeInTwo(Stock(), 1, new_ - cur);
      run := [];
      var ptrs := ReadIndex(doubly);
      ok, ptrs := AllocateRange(ptrs, LastFirstLevel(cur) + 1, LastFirstLevel(new_) + 1);
      if ok {
        ghost var used1 := used;
        assert ptrs[0] == ptrs[0..1][0] && Taken(used0, contents, used1, ptrs[0]);
        ZeroIndex(contents, ptrs[0]);
        ok, run := FillSecondLevels(ptrs, cur, new_);
        if ok {
          TakenEarlier(used0, used1, contents, used, run);
          FilledInRange(used1, contents, used, ptrs[0], run);
          ghost var filled := contents;
          WriteIndex(doubly, ptrs);
          SameWords(filled, contents, ptrs[0]);
        }
      }
    }

    /** The direct and singly indirect part of growth. */
    method ExtendSingly(d: DiskInode, cur: nat, new_: nat) returns (ok: bool, r: DiskInode, ghost run: seq<nat>)
      requires Valid() && |d.direct| == DIRECT_PTRS && cur < new_
      requires AllBelow(d.direct, |contents|)
      requires d.indirect < |contents| && used[d.indirect]
      modifies this`contents, this`used, this`tries, parts
      ensures Valid()
      ensures Grew(old(contents), old(used), contents, used, {d.indirect})
      ensures |r.direct| == DIRECT_PTRS && r == d.(direct := r.direct)
      ensures AllBelow(r.direct, |contents|)
      ensures forall i :: 0 <= i < DIRECT_PTRS && i < cur ==> r.direct[i] == d.direct[i]
      ensures !ok ==> contents[d.indirect] == old(contents)[d.indirect]
      ensures forall i :: 0 <= i < INDIRECT_BLOCK_PTRS ==>
        IndexWord(contents, d.indirect, i) == IndexWord(old(contents), d.indirect, i)
          || IndexWord(contents, d.indirect, i) < |contents|
      ensures ok ==> |run| == NeededSingly(cur, new_)
      ensures ok ==> TakenRun(old(used), contents, used, run)
      ensures ok ==> forall k :: 0 <= k < Min(new_, SINGLE_LIMIT) ==>
        PtrOf(contents, r, k) == if k < cur then PtrOf(old(contents), d, k) else run[k - cur]
      ensures ok <==> old(CanTake(NeededSingly(cur, new_)))
      ensures Stock() == Spend(old(Stock()), NeededSingly(cur, new_))
    {
      hide Enough, Spend, FreeSectors;
      ghost var u0, stock := used, Stock();
      NothingTaken(stock);
      var n := cur;
      r, run := d, [];
      if cur < DIRECT_PTRS {
        var direct;
        n := Min(new_, DIRECT_PTRS);
        TakeInTwo(stock, n - cur, Min(new_, SINGLE_LIMIT) - n);
        ok, direct := AllocateRange(d.direct, cur, n);
        r := r.(direct := direct);
        run := direct[cur..n];
        if !ok {
          return;
        }
      }
      if n < SINGLE_LIMIT && new_ > DIRECT_PTRS {
        ghost var c1, u1, run2 := contents, used, [];
        TakeInTwo(stock, n - cur, Min(new_, SINGLE_LIMIT) - n);
        ok, run2 := FillIndex(d.indirect, n - DIRECT_PTRS, Min(new_, SINGLE_LIMIT) - DIRECT_PTRS);
        if !ok {
          return;
        }
        TakenAppend(u0, c1, u1, contents, used, run, run2, {d.indirect});
        run := run + run2;
      }
      ok := true;
    }

    /** A file of `from` bytes can be given the sectors for `to` bytes. */
    ghost predicate CanExtend(from: nat, to: nat)
      reads this
    {
      Extendable(Stock(), from, to)
    }

    /**
     Gives a file the sectors that `length` bytes need.  On failure the sectors found
     so far stay allocated but belong to no file, and the file is what it was.
     */
    method Extend(d: DiskInode, length: nat) returns (ok: bool, r: DiskInode, ghost run: seq<nat>)
      requires Valid() && |d.direct| == DIRECT_PTRS
      requires AllBelow(d.direct, |contents|)
      requires d.indirect < |contents| && used[d.indirect]
      requires d.doubly < |contents| && used[d.doubly]
      requires BytesToSectors(d.length) <= GROWTH_LIMIT
      requires length <= MAX_INODE_SIZE ==> GrowthSupported(BytesToSectors(d.length), BytesToSectors(length))
      modifies this`contents, this`used, this`tries, parts
      ensures Valid()
      ensures Grew(old(contents), old(used), contents, used, {d.indirect, d.doubly})
      ensures |r.direct| == DIRECT_PTRS && r == d.(direct := r.direct, length := r.length)
      ensures AllBelow(r.direct, |contents|)
      ensures ok ==> BytesToSectors(d.length) <= BytesToSectors(length) <= GROWTH_LIMIT
      ensures ok <==> old(CanExtend(d.length, length))
      ensures Stock() == Spend(old(Stock()), Cost(d.length, length))
      ensures r.length == if ok && BytesToSectors(d.length) != BytesToSectors(length) then length else d.length
      ensures IndexKept(old(contents), contents, d.indirect) && IndexKept(old(contents), contents, d.doubly)
      ensures BytesToSectors(length) <= SINGLE_LIMIT && d.indirect != d.doubly ==>
        contents[d.doubly] == old(contents)[d.doubly]
      ensures d.indirect != d.doubly ==>
        && KeptBlocks(old(contents), contents, d, r, BytesToSectors(d.length))
        && (ok ==> GainedBlocks(old(used), contents, used, r, BytesToSectors(d.length), BytesToSectors(length), run))
        && (!ok ==> contents[d.doubly] == old(contents)[d.doubly])
    {
      hide KeptBlocks, GainedBlocks, PtrOf, Enough, Spend, FreeSectors;
      NothingTaken(Stock());
      var cur, new_ := BytesToSectors(d.length), BytesToSectors(length);
      r, run := d, [];
      NothingMoved(contents, used, d, cur);
      if new_ < cur {
        return false, r, run;
      } else if new_ == cur {
        return true, r, run;
      }
      if length > MAX_INODE_SIZE || length < d.length {
        return false, r, run;
      }
      SupportedStaysSmall(cur, new_);
      ghost var c0, u0 := contents, used;
      TakeInTwo(Stock(), NeededSingly(cur, new_), Needed(cur, new_) - NeededSingly(cur, new_));
      ok, r, run := ExtendSingly(d, cur, new_);
      NothingTaken(Stock());
      if !ok {
        SinglyFailed(c0, contents, d, r, cur);
        return;
      }
      ghost var c1, u1, run1, run3 := contents, used, run, [];
      if new_ > SINGLE_LIMIT {
        ok, run3 := ExtendDoubly(d.doubly, SINGLE_LIMIT, new_);
        if d.indirect != d.doubly {
          DoublyKeeps(c0, c1, contents, d, r, cur);
          if ok {
            DoublyGains(u0, c1, u1, contents, used, r, cur, new_, run1, run3);
          }
        }
        if !ok {
          return;
        }
        run := run1 + run3;
      } else if d.indirect != d.doubly {
        DoublyKeeps(c0, c1, contents, d, r, cur);
        SinglyGains(u0, contents, used, r, cur, new_, run);
      }
      if d.indirect != d.doubly {
        Relength(c0, u0, contents, used, d, r, cur, new_, run, length);
      }
      r := r.(length := length);
    }

    /** Gives a new inode its two index blocks, zeroed. */
    method AllocateIndexBlocks(d: DiskInode) returns (ok: bool, r: DiskInode)
      requires Valid() && d.indirect == 0 && d.doubly == 0
      modifies this`contents, this`used, this`tries, parts
      ensures Valid()
      ensures Grew(old(contents), old(used), contents, used, {})
      ensures r == d.(indirect := r.indirect, doubly := r.doubly)
      ensures r.indirect < |contents| && used[r.indirect] && (r.indirect == 0 || !old(used)[r.indirect])
      ensures r.doubly < |contents| && used[r.doubly] && (r.doubly == 0 || !old(used)[r.doubly])
      ensures ok ==> TakenRun(old(used), contents, used, [r.indirect, r.doubly])
      ensures ok <==> old(CanTake(2))
      ensures Stock() == Spend(old(Stock()), 2)
    {
      hide Enough, Spend, FreeSectors;
      TakeInTwo(Stock(), 1, 1);
      r := d;
      var i := Allocate();
      if i == None {
        return false, r;
      }
      r := r.(indirect := i.value);
      Write(i.value, ZEROS);
      var j := Allocate();
      if j == None {
        return false, r;
      }
      r := r.(doubly := j.value);
      Write(j.value, ZEROS);
      ok := true;
    }

    /**
     Gives the free map an inode in sector 0 and a file, to which it is written from then
     on; if there is no room for the file, formatting ends in a panic.
     */
    method CreateMapFile() returns (ok: bool)
      requires Valid() && !logged
      requires ByteCnt(|used|) <= MAX_INODE_SIZE ==> GrowthSupported(0, BytesToSectors(ByteCnt(|used|)))
      modifies this`contents, this`used, this`tries, this`logged, parts
      ensures Valid() && logged == ok
      ensures |contents| == old(|contents|) && MapInodeOk(contents, used)
      ensures
        var size := ByteCnt(old(|used|));
        && (ok <==> size <= MAX_INODE_SIZE && 2 + Cost(0, size) <= |FreeSectors(old(used))|)
        && Stock() == Spend(Spend(old(Stock()), 2), Cost(0, size)).(logged := ok)
    {
      hide InodeBlock, WordAt, Enough, Spend, FreeSectors, KeptBlocks, GainedBlocks, IndexKept, ByteCnt;
      ghost var stock, run := Stock(), [];
      var size := ByteCnt(freeMap.used.bitCnt);
      EnoughUnlogged(stock, 2 + Cost(0, size));
      TakeInTwo(stock, 2, Cost(0, size));
      NothingTaken(Spend(stock, 2));
      var created, d := AllocateIndexBlocks(NewInode(false));
      var extended, r;
      extended, r, run := Extend(d, size);
      FirstWord(contents, 0, r);
      Write(0, InodeBlock(r));
      ok := extended && created;
      if ok {
        freeMap.Create();
        logged := true;
      }
    }

    /** Gives a sector back; its contents stay until it is taken again. */
    method Release(s: nat)
      requires Valid() && 0 < s < |contents| && used[s]
      modifies this`used, parts
      ensures Valid()
      ensures used == old(used)[s := false]
      ensures Stock() == old(Stock()).(free := old(Stock()).free + 1)
    {
      GaveOne(used, s);
      var writeOk: bool := *;
      freeMap.Release(s, 1, writeOk);
      used := freeMap.used.bits;
      assert used == old(used)[s := false];
    }
  }
}
