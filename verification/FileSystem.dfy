/**
 The inode layer: files that grow on write, stored through the buffer cache in
 sectors handed out by the free map.
 */
module FileSystems {

  import opened Options
  import opened Blocks
  import opened Words
  import Bitmaps
  import opened InodeLayout
  import opened InodeGrowth
  import opened SectorTaking
  import opened FileTheory
  import opened Storages

  class FileSystem {

    const disk: Storage

    // the inodes now open, by inode sector
    var open: map<nat, OpenInode>

    // every file created, what it is, and which sectors it owns
    ghost var files: map<nat, FileView>
    ghost var owner: map<nat, Owner>

    ghost predicate Valid()
      reads this, disk, disk.parts
      ensures Valid() ==> this !in disk.parts && disk !in disk.parts
    {
      && this !in disk.parts
      && disk.Valid()
      && Consistent(disk.contents, disk.used, owner, files)
      && OpenOk(disk.contents, files, open)
    }

    /** The abstract file: its bytes. */
    ghost function Bytes(f: nat): (b: seq<byte>)
      reads this, disk
      ensures f in files ==> |b| == files[f].length
    {
      if f in files then FileBytes(disk.contents, files[f]) else []
    }

    /**
     Formats a device: the free map gets an inode in sector 0 and a file of its own, to
     which it is written from then on.  There are no other files yet.  `disk.logged` says
     whether the device had room for that file; without room the kernel panics.
     */
    constructor (device: seq<Block>, mapOk: nat -> bool)
      requires 2 <= |device| <= NO_SECTOR
      requires Bitmaps.ByteCnt(|device|) <= MAX_INODE_SIZE ==>
        GrowthSupported(0, BytesToSectors(Bitmaps.ByteCnt(|device|)))
      ensures Valid() && files == map[] && open == map[]
      ensures fresh(disk) && fresh(disk.parts) && disk.mapOk == mapOk
      ensures
        var size := Bitmaps.ByteCnt(|device|);
        && (disk.logged <==> size <= MAX_INODE_SIZE && 4 + Cost(0, size) <= |device|)
        && (disk.logged ==> disk.Stock() == Supply(|device| - 4 - Cost(0, size), 2 + Cost(0, size), true, mapOk))
    {
      disk := new Storage(device, mapOk);
      open, files, owner := map[], map[], map[];
      new;
      hide Storage.Valid, MapInodeOk, Bitmaps.ByteCnt, Enough, Spend, FreeSectors, Cost;
      FreshlyFree(disk.used);
      ghost var stock, cost := disk.Stock(), Cost(0, Bitmaps.ByteCnt(|device|));
      var created := disk.CreateMapFile();
      if created {
        SpendBoth(stock, 2, cost);
      }
    }

    /** The sector of byte `pos`, found through the index blocks. */
    method ByteToSector(f: nat, pos: int) returns (sector: nat)
      requires Valid() && f in open
      modifies disk.parts
      ensures Valid()
      ensures sector == Locate(disk.contents, open[f].data, pos)
    {
      hide Storage.Valid, Consistent, OpenOk, Describes;
      OpenFacts(disk.contents, disk.used, owner, files, open, f);
      var d := open[f].data;
      if pos > d.length || pos < 0 {
        return NO_SECTOR;
      }
      var blockIndex := pos / SECTOR_SIZE;
      if blockIndex < DIRECT_PTRS {
        sector := d.direct[blockIndex];
      } else if blockIndex < SINGLE_LIMIT {
        var ptrs := disk.ReadIndex(d.indirect);
        sector := ptrs[blockIndex - DIRECT_PTRS];
      } else if blockIndex < DOUBLE_LIMIT {
        assert blockIndex <= GROWTH_LIMIT;
        var ptrs := disk.ReadIndex(d.doubly);
        ptrs := disk.ReadIndex(ptrs[(blockIndex - SINGLE_LIMIT) / INDIRECT_BLOCK_PTRS]);
        sector := ptrs[(blockIndex - SINGLE_LIMIT) % INDIRECT_BLOCK_PTRS];
      } else {
        sector := NO_SECTOR;
      }
    }

    /** Extends an open file's sectors; what follows from success or failure is stated for the theory of growth. */
    method ExtendOpen(f: nat, length: nat) returns (ok: bool, r: DiskInode, ghost run: seq<nat>)
      requires Valid() && f in open && f in files
      requires open[f].data.length <= length || length == 0
      requires length <= MAX_INODE_SIZE ==> GrowthSupported(BytesToSectors(open[f].data.length), BytesToSectors(length))
      modifies disk`contents, disk`used, disk`tries, disk.parts
      ensures disk.Valid() && |r.direct| == DIRECT_PTRS && f < |disk.contents|
      ensures !ok ==>
        && Consistent(disk.contents, disk.used, owner, files)
        && Describes(disk.contents, r, old(files[f]))
        && FileBytes(disk.contents, old(files[f])) == FileBytes(old(disk.contents), old(files[f]))
        && forall g :: g != f ==> Keeps(old(disk.contents), disk.contents, files, g)
      ensures ok ==> Extended(old(disk.contents), old(disk.used), disk.contents, disk.used, owner, files, f,
        old(open[f].data), r.(length := length), run)
      ensures ok <==> old(disk.CanExtend(open[f].data.length, length))
      ensures disk.Stock() == Spend(old(disk.Stock()), Cost(old(open[f].data.length), length))
    {
      hide Storage.Valid, Storage.CanExtend, Consistent, OpenOk, Describes, KeptBlocks, GainedBlocks,
           Keeps, IndexKept, Spend, Cost, FreeSectors;
      ghost var c0, u0 := disk.contents, disk.used;
      var d := open[f].data;
      OpenFacts(c0, u0, owner, files, open, f);
      ok, r, run := disk.Extend(d, length);
      if ok {
        Relength(c0, u0, disk.contents, disk.used, d, r, BytesToSectors(d.length), BytesToSectors(length), run, length);
      } else {
        GrowthFailed(c0, u0, disk.contents, disk.used, owner, files, f, d, r);
      }
    }

    /** Extends a file and writes its inode; on failure every file is as it was. */
    method Grow(f: nat, length: nat) returns (ok: bool)
      requires Valid() && f in open && f in files
      requires open[f].data.length <= length || length == 0
      requires length <= MAX_INODE_SIZE ==> GrowthSupported(BytesToSectors(open[f].data.length), BytesToSectors(length))
      modifies this, disk`contents, disk`used, disk`tries, disk.parts
      ensures Valid() && f in open && open == old(open)[f := old(open)[f].(data := open[f].data)] && f in files
      ensures files == if ok then old(files)[f := files[f]] else old(files)
      ensures ok ==> files[f].length == length && |old(Bytes(f))| <= length && Bytes(f) == Grown(old(Bytes(f)), length)
      ensures files[f].directory == old(files[f].directory)
      ensures forall g :: g in old(files) && (g != f || !ok) ==> Bytes(g) == old(Bytes(g))
      ensures ok <==> old(disk.CanExtend(open[f].data.length, length))
      ensures disk.Stock() == Spend(old(disk.Stock()), Cost(old(open[f].data.length), length))
    {
      hide Storage.Valid, Storage.CanExtend, Consistent, OpenOk, Describes, StillDescribed, FileBytes,
           GrownOwner, Extended, Spend, Cost, FreeSectors;
      ghost var c0, u0, files0, d := disk.contents, disk.used, files, open[f].data;
      OpenFacts(c0, u0, owner, files, open, f);
      var r;
      ghost var run;
      ok, r, run := ExtendOpen(f, length);
      if ok {
        r := r.(length := length);
        ghost var c := disk.contents;
        GrowthDone(c0, u0, c, disk.used, owner, files, f, d, r, run);
        OpenUpdated(c0, c[f := InodeBlock(r)], files, GrownView(files[f], length, run), open, f, open[f].(data := r));
        disk.Write(f, InodeBlock(r));
        open := open[f := open[f].(data := r)];
        owner := GrownOwner(owner, f, |files[f].blocks|, run, IndexWord(c, r.doubly, 0));
        files := files[f := GrownView(files[f], length, run)];
      } else {
        OpenUpdated(c0, disk.contents, files, files[f], open, f, open[f].(data := r));
        open := open[f := open[f].(data := r)];
        assert files[f := files[f]] == files;
      }
      assert forall g :: g in files0 && g != f ==> Keeps(c0, disk.contents, files0, g);
    }

    /** Reads `chunk` bytes that lie inside one sector, directly or through the bounce buffer. */
    method ReadChunk(f: nat, sector: nat, pos: nat, chunk: nat, bounceOk: bool) returns (ok: bool, piece: seq<byte>)
      requires Valid() && f in open && f in files
      requires 0 < chunk && pos % SECTOR_SIZE + chunk <= SECTOR_SIZE && pos + chunk <= files[f].length
      requires sector == Locate(disk.contents, open[f].data, pos)
      modifies disk.parts
      ensures Valid()
      ensures ok ==> piece == Bytes(f)[pos..pos + chunk]
      ensures ok <==> bounceOk || (pos % SECTOR_SIZE == 0 && chunk == SECTOR_SIZE)
    {
      hide Storage.Valid, Consistent, OpenOk, Locate, FileBytes;
      LocateInside(disk.contents, disk.used, owner, files, open, f, pos);
      ChunkOf(disk.contents, files[f], pos, chunk);
      ok, piece := true, [];
      if pos % SECTOR_SIZE == 0 && chunk == SECTOR_SIZE {
        piece := disk.Read(sector);
      } else {
        if !bounceOk {
          return false, [];
        }
        var bounce := disk.Read(sector);
        piece := bounce[pos % SECTOR_SIZE..pos % SECTOR_SIZE + chunk];
      }
    }

    /**
     Reads up to `size` bytes at `offset`.  `bounceOk` says whether memory for the
     bounce buffer can be had; without it reading stops at the first partial sector.
     */
    method ReadAt(f: nat, size: nat, offset: nat, bounceOk: bool) returns (data: seq<byte>)
      requires Valid() && f in open && f in files
      modifies disk.parts
      ensures Valid()
      ensures |data| == Copied(old(files[f].length), size, offset, bounceOk)
      ensures IsPart(old(Bytes(f)), offset, data)
    {
      hide Storage.Valid, Consistent, OpenOk, Describes, Locate, FileBytes, ChunkSize, Copied, CopiedSoFar,
           Available;
      OpenFacts(disk.contents, disk.used, owner, files, open, f);
      ghost var bytes := Bytes(f);
      CopyStarts(|bytes|, size, offset, bounceOk);
      data := [];
      var pos, left := offset, size;
      while left > 0
        invariant Valid()
        invariant pos == offset + |data| && left + |data| == size && 0 <= left
        invariant |data| > 0 ==> pos <= |bytes| && data == bytes[offset..pos]
        invariant CopiedSoFar(|bytes|, size, offset, bounceOk, |data|)
      {
        var sector := ByteToSector(f, pos);
        var chunk := ChunkSize(open[f].data.length, pos, left);
        if chunk <= 0 {
          CopyEnds(|bytes|, size, offset, bounceOk, |data|);
          break;
        }
        var ok, piece := ReadChunk(f, sector, pos, chunk, bounceOk);
        if !ok {
          CopyEnds(|bytes|, size, offset, bounceOk, |data|);
          break;
        }
        CopyGoesOn(|bytes|, size, offset, bounceOk, |data|);
        assert bytes[offset..pos + chunk] == bytes[offset..pos] + bytes[pos..pos + chunk];
        data := data + piece;
        left := left - chunk;
        pos := pos + chunk;
      }
      if left == 0 {
        CopyEnds(|bytes|, size, offset, bounceOk, |data|);
      }
    }

    /** Writes `piece` inside one sector, directly or by patching a copy in the bounce buffer. */
    method WriteChunk(f: nat, sector: nat, pos: nat, piece: seq<byte>, bounceOk: bool) returns (ok: bool)
      requires Valid() && f in open && f in files
      requires 0 < |piece| && pos % SECTOR_SIZE + |piece| <= SECTOR_SIZE && pos + |piece| <= files[f].length
      requires sector == Locate(disk.contents, open[f].data, pos)
      modifies disk`contents, disk.parts
      ensures Valid()
      ensures Bytes(f) == if ok then Overlay(old(Bytes(f)), pos, piece) else old(Bytes(f))
      ensures forall g :: g in files && g != f ==> Bytes(g) == old(Bytes(g))
      ensures ok <==> bounceOk || (pos % SECTOR_SIZE == 0 && |piece| == SECTOR_SIZE)
    {
      hide Storage.Valid, Consistent, OpenOk, Locate, FileBytes, StillDescribed, Describes;
      ghost var c0 := disk.contents;
      LocateInside(c0, disk.used, owner, files, open, f, pos);
      ChunkWrite(c0, disk.used, owner, files, f, pos, piece);
      var sectorOfs := pos % SECTOR_SIZE;
      if sectorOfs == 0 && |piece| == SECTOR_SIZE {
        assert Patched(c0[sector], 0, piece) == piece;
        disk.Write(sector, piece);
      } else {
        if !bounceOk {
          return false;
        }
        var bounce := ZEROS;
        if sectorOfs > 0 || |piece| < SECTOR_SIZE - sectorOfs {
          bounce := disk.Read(sector);
        }
        disk.Write(sector, Patched(bounce, sectorOfs, piece));
      }
      OpenKept(c0, disk.contents, files, open);
      ok := true;
    }

    /** The copy loop of a write: sector by sector, never past the end of file. */
    method WriteWithin(f: nat, buffer: seq<byte>, offset: nat, bounceOk: bool) returns (n: nat)
      requires Valid() && f in open && f in files
      modifies disk`contents, disk.parts
      ensures Valid()
      ensures WriteOutcome(old(Bytes(f)), Bytes(f), old(files[f].length), offset, buffer, n)
      ensures n == Copied(old(files[f].length), |buffer|, offset, bounceOk)
      ensures forall g :: g in files && g != f ==> Bytes(g) == old(Bytes(g))
    {
      hide Storage.Valid, Consistent, OpenOk, Describes, Locate, FileBytes, WriteOutcome, Overlay, ChunkSize, Copied,
           CopiedSoFar, Available;
      OpenFacts(disk.contents, disk.used, owner, files, open, f);
      ghost var bytes := Bytes(f);
      CopyStarts(|bytes|, |buffer|, offset, bounceOk);
      OutcomeNone(bytes, offset, buffer);
      n := 0;
      var pos, left := offset, |buffer|;
      while left > 0
        invariant Valid()
        invariant pos == offset + n && left + n == |buffer| && 0 <= left
        invariant n > 0 ==> pos <= |bytes|
        invariant WriteOutcome(bytes, Bytes(f), |bytes|, offset, buffer, n)
        invariant CopiedSoFar(|bytes|, |buffer|, offset, bounceOk, n)
        invariant forall g :: g in files && g != f ==> Bytes(g) == old(Bytes(g))
      {
        var sector := ByteToSector(f, pos);
        var chunk := ChunkSize(open[f].data.length, pos, left);
        if chunk <= 0 {
          CopyEnds(|bytes|, |buffer|, offset, bounceOk, n);
          break;
        }
        ghost var before := Bytes(f);
        var piece := buffer[n..n + chunk];
        OutcomeNext(bytes, before, |bytes|, offset, buffer, n, chunk);
        var ok := WriteChunk(f, sector, pos, piece, bounceOk);
        if !ok {
          CopyEnds(|bytes|, |buffer|, offset, bounceOk, n);
          break;
        }
        CopyGoesOn(|bytes|, |buffer|, offset, bounceOk, n);
        assert Bytes(f) == Overlay(before, offset + n, piece);
        left := left - chunk;
        pos := pos + chunk;
        n := n + chunk;
      }
      if left == 0 {
        CopyEnds(|bytes|, |buffer|, offset, bounceOk, n);
      }
    }

    /**
     A write that is to end at `end` has to grow the file; one that ends a single byte past the end
     does not see it.
     */
    ghost predicate PastEnd(f: nat, end: nat)
      reads this
    {
      f in files && (end == 0 || end > files[f].length + 1)
    }

    ghost predicate Writable(f: nat)
      reads this
    {
      f in open && open[f].denyWriteCnt == 0
    }

    /** Grows the file to `length` bytes if its inode finds no sector for the last of them. */
    method Prepare(f: nat, length: nat) returns (ok: bool, grown: bool)
      requires Valid() && f in open && f in files
      requires files[f].length + 1 < length <= MAX_INODE_SIZE ==>
        GrowthSupported(BytesToSectors(files[f].length), BytesToSectors(length))
      modifies this, disk`contents, disk`used, disk`tries, disk.parts
      ensures Valid() && f in open && open == old(open)[f := old(open)[f].(data := open[f].data)]
      ensures f in files && files == old(files)[f := files[f]]
      ensures ok <==> !old(PastEnd(f, length)) || old(disk.CanExtend(files[f].length, length))
      ensures grown <==> ok && old(PastEnd(f, length))
      ensures !old(PastEnd(f, length)) ==> disk.used == old(disk.used) && disk.Stock() == old(disk.Stock())
      ensures old(PastEnd(f, length)) ==>
        disk.Stock() == Spend(old(disk.Stock()), Cost(old(files[f].length), length))
      ensures files[f].directory == old(files[f].directory)
      ensures files[f].length == if grown then length else old(files[f].length)
      ensures |old(Bytes(f))| <= |Bytes(f)| && Bytes(f) == Grown(old(Bytes(f)), |Bytes(f)|)
      ensures forall g :: g in old(files) && g != f ==> Bytes(g) == old(Bytes(g))
    {
      hide Storage.Valid, Storage.CanExtend, Consistent, OpenOk, Describes, Locate, FileBytes, Spend,
           Cost, FreeSectors;
      OpenFacts(disk.contents, disk.used, owner, files, open, f);
      assert files[f := files[f]] == files;
      assert Grown(Bytes(f), |Bytes(f)|) == Bytes(f);
      assert open[f := open[f].(data := open[f].data)] == open;
      ok, grown := true, false;
      MissingIffPastEnd(disk.contents, disk.used, owner, files, open, f, length - 1);
      var last := ByteToSector(f, length - 1);
      if last == NO_SECTOR {
        ok := Grow(f, length);
        grown := ok;
      }
    }

    /**
     Writes `buffer` at `offset`, growing the file first if its last byte lies past
     the end.  `grown` says whether it did.  The first `n` bytes of the buffer are in
     the file afterwards, room gained reads as zero, all other bytes are what they
     were, and so is every other file.  The write is complete exactly if writing is
     allowed, the buffer ends inside the file or the file can be made longer by more
     than one byte, and there is a bounce buffer or no need for one.
     */
    method WriteAt(f: nat, buffer: seq<byte>, offset: nat, bounceOk: bool) returns (n: nat, grown: bool)
      requires Valid() && f in open && f in files
      requires Writable(f) && files[f].length + 1 < offset + |buffer| <= MAX_INODE_SIZE ==>
        GrowthSupported(BytesToSectors(files[f].length), BytesToSectors(offset + |buffer|))
      modifies this, disk`contents, disk`used, disk`tries, disk.parts
      ensures Valid() && f in open && open == old(open)[f := old(open)[f].(data := open[f].data)]
      ensures f in files && files == old(files)[f := files[f]]
      ensures grown <==>
        old(Writable(f) && PastEnd(f, offset + |buffer|) && disk.CanExtend(files[f].length, offset + |buffer|))
      ensures files[f].directory == old(files[f].directory)
      ensures files[f].length == if grown then offset + |buffer| else old(files[f].length)
      ensures WriteOutcome(old(Bytes(f)), Bytes(f), files[f].length, offset, buffer, n)
      ensures n == if old(Writable(f)) && (grown || !old(PastEnd(f, offset + |buffer|)))
                   then Copied(files[f].length, |buffer|, offset, bounceOk) else 0
      ensures n == |buffer| <==>
        || |buffer| == 0
        || (&& old(Writable(f))
            && old(offset + |buffer| <= files[f].length
                   || (PastEnd(f, offset + |buffer|) && disk.CanExtend(files[f].length, offset + |buffer|)))
            && (bounceOk || WholeSectors(offset, |buffer|)))
      ensures !old(Writable(f) && PastEnd(f, offset + |buffer|)) ==>
        disk.used == old(disk.used) && disk.Stock() == old(disk.Stock())
      ensures old(Writable(f) && PastEnd(f, offset + |buffer|)) ==>
        disk.Stock() == Spend(old(disk.Stock()), Cost(old(files[f].length), offset + |buffer|))
      ensures forall g :: g in old(files) && g != f ==> Bytes(g) == old(Bytes(g))
    {
      hide Storage.Valid, Storage.CanExtend, Consistent, OpenOk, Describes, Locate, FileBytes,
           WriteOutcome, Grown, Spend, Cost, FreeSectors, Copied;
      ghost var bytes0 := Bytes(f);
      OutcomeNone(bytes0, offset, buffer);
      assert open[f := open[f].(data := open[f].data)] == open;
      CompleteIff(files[f].length, |buffer|, offset, bounceOk);
      CompleteIff(offset + |buffer|, |buffer|, offset, bounceOk);
      assert files[f := files[f]] == files;
      if open[f].denyWriteCnt > 0 {
        return 0, false;
      }
      var ok;
      ok, grown := Prepare(f, offset + |buffer|);
      ghost var bytes1 := Bytes(f);
      n := 0;
      if ok {
        n := WriteWithin(f, buffer, offset, bounceOk);
        OutcomeAfterGrowth(bytes0, bytes1, Bytes(f), |bytes1|, offset, buffer, n);
      } else {
        OutcomeNone(bytes1, offset, buffer);
        OutcomeAfterGrowth(bytes0, bytes1, bytes1, |bytes1|, offset, buffer, n);
      }
    }

    /**
     Creates a file of `length` zero bytes with its inode in sector `f`, which the
     caller has allocated.  The inode is written even on failure, but then `f` is no
     file, and whatever was allocated belongs to nobody.
     */
    method Create(f: nat, length: nat, directory: bool) returns (success: bool)
      requires Valid() && 0 < f < |disk.contents| && disk.used[f] && f !in owner && f !in files
      requires length <= MAX_INODE_SIZE ==> GrowthSupported(0, BytesToSectors(length))
      modifies this, disk`contents, disk`used, disk`tries, disk.parts
      ensures Valid() && open == old(open)
      ensures success ==> f in files && files == old(files)[f := files[f]] && Bytes(f) == Zeros(length)
      ensures success ==> files[f].directory == directory && ParseInode(disk.contents[f]).directory == directory
      ensures !success ==> files == old(files) && owner == old(owner)
      ensures forall g :: g in old(files) ==> g in files && Bytes(g) == old(Bytes(g))
      ensures success <==> length <= MAX_INODE_SIZE && old(disk.CanTake(2 + Cost(0, length)))
      ensures disk.Stock() == Spend(Spend(old(disk.Stock()), 2), Cost(0, length))
      ensures |disk.contents| == old(|disk.contents|) && disk.used[f]
    {
      hide ParseInode, Enough, Spend, FreeSectors, IndexKept, Storage.Valid, Consistent, OpenOk, Describes, FileBytes,
           InodeBlock,
           WithFile,
           GrownOwner, KeptBlocks, GainedBlocks, StillDescribed, NewFile;
      ghost var c0, u0, files0 := disk.contents, disk.used, files;
      TakeInTwo(disk.Stock(), 2, Cost(0, length));
      var d;
      success, d := disk.AllocateIndexBlocks(NewInode(directory));
      ghost var c1, u1, run := disk.contents, disk.used, [];
      NothingTaken(disk.Stock());
      var extended, r;
      extended, r, run := disk.Extend(d, length);
      ghost var c, u := disk.contents, disk.used;
      disk.Write(f, InodeBlock(r));
      success := extended && success;
      if success {
        FreshIndexBlocks(c0, u0, c1, u1, owner, files, f, d);
        CreateDone(c0, u0, c1, u1, c, u, owner, files, f, d, r, run);
        owner := GrownOwner(WithFile(owner, f, d.indirect, d.doubly), f, 0, run, IndexWord(c, r.doubly, 0));
        files := files[f := FileView(directory, length, d.indirect, d.doubly, run)];
        OpenWithFile(c0, disk.contents, files0, open, f, files[f]);
        DirectoryOnDisk(disk.contents, disk.used, owner, files, f);
      } else {
        CreateFailed(c0, u0, c1, u1, c, u, owner, files, f, d, r);
        forall g | g in files
          ensures StillDescribed(c0, disk.contents, files, g)
        {
          assert Keeps(c0, disk.contents, files0, g);
        }
        OpenKept(c0, disk.contents, files, open);
      }
      forall g | g in files0
        ensures g in files && Bytes(g) == old(Bytes(g))
      {
        assert Keeps(c0, disk.contents, files0, g);
      }
    }

    /**
     Takes a sector for an inode and creates a file of `length` zero bytes there; if that
     fails, the sector is given back.
     */
    method Make(length: nat, directory: bool) returns (r: Option<nat>)
      requires Valid() && disk.logged
      requires length <= MAX_INODE_SIZE ==> GrowthSupported(0, BytesToSectors(length))
      modifies this, disk`contents, disk`used, disk`tries, disk.parts
      ensures Valid() && open == old(open)
      ensures r.Some? ==>
        && r.value !in old(files) && r.value in files && files == old(files)[r.value := files[r.value]]
        && Bytes(r.value) == Zeros(length) && files[r.value].directory == directory
      ensures r.None? ==> files == old(files)
      ensures forall g :: g in old(files) ==> g in files && Bytes(g) == old(Bytes(g))
      ensures r.Some? <==> old(Makeable(disk.Stock(), length))
      ensures disk.Stock() == AfterMake(old(disk.Stock()), length)
    {
      hide Storage.Valid, Consistent, OpenOk, FileBytes, Enough, Spend, Cost, FreeSectors;
      TakeInTwo(disk.Stock(), 1, 2 + Cost(0, length));
      ghost var u0 := disk.used;
      r := disk.Allocate();
      if r.None? {
        return;
      }
      FreshInode(disk.contents, u0, owner, files, r.value);
      var success := Create(r.value, length, directory);
      if !success {
        ReleaseKeeps(disk.contents, disk.used, owner, files, r.value);
        disk.Release(r.value);
        r := None;
      }
    }

    /**
     Opens the file whose inode is in sector `f`.  An inode already open is shared;
     otherwise the copy on disk is read, and it describes the same file.
     */
    method Open(f: nat)
      requires Valid() && f in files
      modifies this`open, disk.parts
      ensures Valid() && f in open
      ensures open == if f in old(open) then old(open)[f := old(open)[f].(openCnt := old(open)[f].openCnt + 1)]
                      else old(open)[f := OpenInode(ParseInode(disk.contents[f]), 1, 0)]
    {
      hide Storage.Valid, Consistent, OpenOk, Describes;
      if f in open {
        OpenAgain(disk.contents, files, open, f, open[f].(openCnt := open[f].openCnt + 1));
        open := open[f := open[f].(openCnt := open[f].openCnt + 1)];
      } else {
        OnDisk(disk.contents, disk.used, owner, files, f);
        var block := disk.Read(f);
        OpenAgain(disk.contents, files, open, f, OpenInode(ParseInode(block), 1, 0));
        open := open[f := OpenInode(ParseInode(block), 1, 0)];
      }
    }

    /** Closes one opener's use of a file; the last one drops the in-memory inode. */
    method Close(f: nat)
      requires Valid() && f in open && open[f].openCnt > 0
      modifies this`open
      ensures Valid()
      ensures open == if old(open)[f].openCnt == 1 then old(open) - {f}
                      else old(open)[f := old(open)[f].(openCnt := old(open)[f].openCnt - 1)]
    {
      hide Storage.Valid, Consistent, Describes;
      if open[f].openCnt == 1 {
        open := open - {f};
      } else {
        open := open[f := open[f].(openCnt := open[f].openCnt - 1)];
      }
    }

    /** Forbids writing; each opener may do so once. */
    method DenyWrite(f: nat)
      requires Valid() && f in open && open[f].denyWriteCnt < open[f].openCnt
      modifies this`open
      ensures Valid()
      ensures open == old(open)[f := old(open)[f].(denyWriteCnt := old(open)[f].denyWriteCnt + 1)]
    {
      hide Storage.Valid, Consistent, Describes;
      open := open[f := open[f].(denyWriteCnt := open[f].denyWriteCnt + 1)];
    }

    method AllowWrite(f: nat)
      requires Valid() && f in open && 0 < open[f].denyWriteCnt <= open[f].openCnt
      modifies this`open
      ensures Valid()
      ensures open == old(open)[f := old(open)[f].(denyWriteCnt := old(open)[f].denyWriteCnt - 1)]
    {
      hide Storage.Valid, Consistent, Describes;
      open := open[f := open[f].(denyWriteCnt := open[f].denyWriteCnt - 1)];
    }

    /** inode_is_dir() */
    method IsDir(f: nat) returns (directory: bool)
      requires Valid() && f in open && f in files
      ensures directory == files[f].directory
    {
      OpenFacts(disk.contents, disk.used, owner, files, open, f);
      directory := open[f].data.directory;
    }
  }
}
