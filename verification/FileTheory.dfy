/**
 What writes to sectors do to files, stated on values: which files a write leaves
 alone, what it does to the bytes of the others, and what growth adds.
 */
module FileTheory {

  import opened Sequences
  import opened Blocks
  import opened Words
  import opened InodeLayout
  import opened SectorTaking

  /** Every file is in order, and everything it owns is allocated to it alone. */
  ghost predicate Consistent(contents: seq<Block>, used: seq<bool>, owner: map<nat, Owner>, files: map<nat, FileView>) {
    && |contents| == |used|
    && MapInodeOk(contents, used)
    && OwnersAllocated(owner, used)
    && forall f :: f in files ==> FileOk(contents, owner, f, files[f])
  }

  datatype OpenInode = OpenInode(data: DiskInode, openCnt: nat, denyWriteCnt: nat)

  /** Open inodes describe the files they are open on. */
  ghost predicate OpenOk(contents: seq<Block>, files: map<nat, FileView>, open: map<nat, OpenInode>) {
    forall f :: f in open ==> f in files && Describes(contents, open[f].data, files[f])
  }

  /** `bytes` with `data` copied over it at `offset`. */
  function Overlay(bytes: seq<byte>, offset: nat, data: seq<byte>): (r: seq<byte>)
    ensures |r| == |bytes|
  {
    seq(|bytes|, p requires 0 <= p < |bytes| => if offset <= p < offset + |data| then data[p - offset] else bytes[p])
  }

  /** `bytes` made `length` long by zeros. */
  function Grown(bytes: seq<byte>, length: nat): (r: seq<byte>)
    ensures |r| == length
  {
    seq(length, p requires 0 <= p < length => if p < |bytes| then bytes[p] else 0)
  }

  lemma Covers(length: nat)
    ensures length <= SECTOR_SIZE * BytesToSectors(length) < length + SECTOR_SIZE
  {
  }

  lemma MapInodeKept(c0: seq<Block>, u0: seq<bool>, c: seq<Block>, u: seq<bool>)
    requires MapInodeOk(c0, u0) && |c| == |c0| == |u0| == |u|
    requires 0 < |u0| && u0[0] ==> u[0] && c[0] == c0[0]
    ensures MapInodeOk(c, u)
  {
  }

  /** A file owns its inode and its index blocks, and none of them is sector 0. */
  lemma OwnInodeAndIndex(c: seq<Block>, used: seq<bool>, owner: map<nat, Owner>, files: map<nat, FileView>, f: nat)
    requires Consistent(c, used, owner, files) && f in files
    ensures 0 < f < |c| && 0 < files[f].indirect < |c| && 0 < files[f].doubly < |c|
    ensures used[f] && used[files[f].indirect] && used[files[f].doubly]
    ensures
      && Owns(owner, f, InodeOf(f))
      && Owns(owner, files[f].indirect, IndirectOf(f))
      && Owns(owner, files[f].doubly, DoublyOf(f))
  {
    var v := files[f];
    assert FileOk(c, owner, f, v);
    assert Owns(owner, f, InodeOf(f)) && Owns(owner, v.indirect, IndirectOf(f)) && Owns(owner, v.doubly, DoublyOf(f));
  }

  /** Other files and other open inodes do not notice changes outside their own sectors. */
  lemma OthersKept(c0: seq<Block>, c: seq<Block>, used: seq<bool>, owner: map<nat, Owner>, owner': map<nat, Owner>,
                   files: map<nat, FileView>, g: nat)
    requires Consistent(c0, used, owner, files) && g in files && |c| == |c0|
    requires forall s :: s in owner && owner[s].file == g ==> Owns(owner', s, owner[s]) && c[s] == c0[s]
    ensures FileOk(c, owner', g, files[g])
    ensures Keeps(c0, c, files, g)
  {
    var v := files[g];
    FileFrame(c0, c, owner, owner', g, v);
    forall d | Describes(c0, d, v)
      ensures Describes(c, d, v)
    {
      assert Owns(owner, v.indirect, IndirectOf(g)) && Owns(owner, v.doubly, DoublyOf(g));
      DescribesFrame(c0, c, d, v);
    }
  }

  // ---------- Writing a data sector ----------

  /** Bytes of block `k` replaced by those of `block`. */
  ghost predicate BlockReplaced(bytes0: seq<byte>, bytes: seq<byte>, k: nat, block: Block) {
    && |bytes| == |bytes0|
    && forall p :: 0 <= p < |bytes| ==> bytes[p] == if p / SECTOR_SIZE == k then block[p % SECTOR_SIZE] else bytes0[p]
  }

  lemma DataWriteOwn(c0: seq<Block>, used: seq<bool>, owner: map<nat, Owner>, files: map<nat, FileView>, f: nat, k: nat,
                     block: Block)
    requires Consistent(c0, used, owner, files) && f in files && k < |files[f].blocks| && files[f].blocks[k] < |c0|
    requires forall q :: 0 <= q < SECTOR_SIZE && SECTOR_SIZE * k + q >= files[f].length ==> block[q] == 0
    ensures var c := c0[files[f].blocks[k] := block];
      && FileOk(c, owner, f, files[f])
      && BlockReplaced(FileBytes(c0, files[f]), FileBytes(c, files[f]), k, block)
      && forall d :: Describes(c0, d, files[f]) ==> Describes(c, d, files[f])
  {
    var v := files[f];
    var s := v.blocks[k];
    var c := c0[s := block];
    assert Owns(owner, s, DataOf(f, k));
    assert s != f && s != v.indirect && s != v.doubly;
    assert |v.blocks| > SINGLE_LIMIT ==> IndexWord(c0, v.doubly, 0) != s;
    forall j | 0 <= j < |v.blocks| && j != k
      ensures v.blocks[j] != s
    {
      assert Owns(owner, v.blocks[j], DataOf(f, j));
    }
    forall d | Describes(c0, d, v)
      ensures Describes(c, d, v)
    {
      DescribesFrame(c0, c, d, v);
    }
    SameWords(c0, c, v.indirect);
    if |v.blocks| > SINGLE_LIMIT {
      SameWords(c0, c, IndexWord(c0, v.doubly, 0));
    }
    forall p | 0 <= p < SECTOR_SIZE * |v.blocks|
      ensures ByteAt(c, v, p) == if p / SECTOR_SIZE == k then block[p % SECTOR_SIZE] else ByteAt(c0, v, p)
    {
    }
    forall p | v.length <= p < SECTOR_SIZE * |v.blocks|
      ensures ByteAt(c, v, p) == 0
    {
      assert ByteAt(c0, v, p) == 0;
      assert p == SECTOR_SIZE * (p / SECTOR_SIZE) + p % SECTOR_SIZE;
    }
  }

  /** Inodes that described a file still describe it. */
  ghost predicate StillDescribed(c0: seq<Block>, c: seq<Block>, files: map<nat, FileView>, g: nat) {
    forall d :: g in files && Describes(c0, d, files[g]) ==> Describes(c, d, files[g])
  }

  /** What a change of sectors that keeps file `g` keeps. */
  ghost predicate Keeps(c0: seq<Block>, c: seq<Block>, files: map<nat, FileView>, g: nat) {
    g in files ==> FileBytes(c, files[g]) == FileBytes(c0, files[g]) && StillDescribed(c0, c, files, g)
  }

  lemma DataOwned(c: seq<Block>, used: seq<bool>, owner: map<nat, Owner>, files: map<nat, FileView>, f: nat, k: nat)
    requires Consistent(c, used, owner, files) && f in files && k < |files[f].blocks|
    ensures Owns(owner, files[f].blocks[k], DataOf(f, k)) && 0 < files[f].blocks[k] < |c|
  {
    assert FileOk(c, owner, f, files[f]);
  }

  lemma DataWriteDescribes(c0: seq<Block>, used: seq<bool>, owner: map<nat, Owner>, files: map<nat, FileView>, f: nat,
                           k: nat,
                           block: Block)
    requires Consistent(c0, used, owner, files) && f in files && k < |files[f].blocks| && files[f].blocks[k] < |c0|
    requires forall q :: 0 <= q < SECTOR_SIZE && SECTOR_SIZE * k + q >= files[f].length ==> block[q] == 0
    ensures StillDescribed(c0, c0[files[f].blocks[k] := block], files, f)
  {
    hide Consistent, Describes, FileOk, FileBytes, BlockReplaced;
    DataWriteOwn(c0, used, owner, files, f, k, block);
  }

  /** Writing data of one file changes those bytes of that file and nothing else anywhere. */
  lemma DataWrite(c0: seq<Block>, used: seq<bool>, owner: map<nat, Owner>, files: map<nat, FileView>, f: nat, k: nat,
                  block: Block)
    requires Consistent(c0, used, owner, files)
    requires f in files && k < |files[f].blocks| && files[f].blocks[k] < |c0|
    requires forall q :: 0 <= q < SECTOR_SIZE && SECTOR_SIZE * k + q >= files[f].length ==> block[q] == 0
    ensures var c := c0[files[f].blocks[k] := block];
      && Consistent(c, used, owner, files)
      && StillDescribed(c0, c, files, f)
      && BlockReplaced(FileBytes(c0, files[f]), FileBytes(c, files[f]), k, block)
      && forall g :: g != f ==> Keeps(c0, c, files, g)
  {
    hide FileOk, Describes, FileBytes, BlockReplaced, MapInodeOk, StillDescribed;
    var c := c0[files[f].blocks[k] := block];
    DataOwned(c0, used, owner, files, f, k);
    DataWriteOwn(c0, used, owner, files, f, k, block);
    DataWriteDescribes(c0, used, owner, files, f, k, block);
    MapInodeKept(c0, used, c, used);
    forall g | g in files && g != f
      ensures FileOk(c, owner, g, files[g]) && Keeps(c0, c, files, g)
    {
      OthersKept(c0, c, used, owner, owner, files, g);
    }
  }

  // ---------- Growth ----------

  /** Growth changes only index blocks of `f` and sectors that were free. */
  lemma GrowthSparesOthers(c0: seq<Block>, u0: seq<bool>, c: seq<Block>, owner: map<nat, Owner>,
                           owner': map<nat, Owner>, files: map<nat, FileView>, f: nat, g: nat)
    requires Consistent(c0, u0, owner, files) && f in files && g in files && g != f
    requires |c| == |c0|
    requires forall s :: 0 <= s < |c| && u0[s] && s !in {files[f].indirect, files[f].doubly, f} ==> c[s] == c0[s]
    requires forall s :: s in owner ==> Owns(owner', s, owner[s])
    ensures FileOk(c, owner', g, files[g])
    ensures Keeps(c0, c, files, g)
  {
    hide FileOk, FileBytes, StillDescribed, MapInodeOk;
    OwnInodeAndIndex(c0, u0, owner, files, f);
    OthersKept(c0, c, u0, owner, owner', files, g);
  }

  lemma SameIndexBlocks(c: seq<Block>, d: DiskInode, v: FileView)
    requires Describes(c, d, v)
    ensures d.indirect == v.indirect && d.doubly == v.doubly && d.length == v.length
  {
  }

  /** While its index blocks gain pointers, a file's own sectors stay as they are, and its blocks where they are. */
  lemma OwnSectorsKept(c0: seq<Block>, u0: seq<bool>, c: seq<Block>, u: seq<bool>, owner: map<nat, Owner>,
                       files: map<nat, FileView>, f: nat, d: DiskInode, r: DiskInode)
    requires Consistent(c0, u0, owner, files) && f in files && Describes(c0, d, files[f])
    requires |r.direct| == DIRECT_PTRS && r == d.(direct := r.direct)
    requires AllBelow(r.direct, |c|) && |c| <= NO_SECTOR
    requires Grew(c0, u0, c, u, {r.indirect, r.doubly})
    requires KeptBlocks(c0, c, d, r, |files[f].blocks|)
    requires r.doubly < |c| && c[r.doubly] == c0[r.doubly]
    ensures c[f] == c0[f]
    ensures forall k :: 0 <= k < |files[f].blocks| ==> c[files[f].blocks[k]] == c0[files[f].blocks[k]]
    ensures Describes(c, ParseInode(c[f]), files[f]) && Describes(c, r, files[f])
    ensures SecondLevelOk(c, files[f])
  {
    var v, e := files[f], ParseInode(c0[f]);
    assert FileOk(c0, owner, f, v);
    hide ZeroTail, PointersInRange, ParseInode, WordAt;
    assert Owns(owner, f, InodeOf(f)) && Owns(owner, v.indirect, IndirectOf(f)) && Owns(owner, v.doubly, DoublyOf(f));
    forall k | 0 <= k < |v.blocks|
      ensures PtrOf(c, e, k) == v.blocks[k] && PtrOf(c, r, k) == v.blocks[k]
      ensures c[v.blocks[k]] == c0[v.blocks[k]]
    {
      assert Owns(owner, v.blocks[k], DataOf(f, k));
      assert PtrOf(c0, e, k) == v.blocks[k] == PtrOf(c0, d, k) == PtrOf(c, r, k);
    }
    if |v.blocks| > SINGLE_LIMIT {
      SameWords(c0, c, IndexWord(c0, v.doubly, 0));
    }
  }

  /** The file itself, while its index blocks gain pointers it does not use yet. */
  lemma OwnFileKept(c0: seq<Block>, u0: seq<bool>, c: seq<Block>, u: seq<bool>, owner: map<nat, Owner>,
                    files: map<nat, FileView>, f: nat, d: DiskInode, r: DiskInode)
    requires Consistent(c0, u0, owner, files) && f in files && Describes(c0, d, files[f])
    requires |r.direct| == DIRECT_PTRS && r == d.(direct := r.direct)
    requires AllBelow(r.direct, |c|) && |c| <= NO_SECTOR
    requires Grew(c0, u0, c, u, {r.indirect, r.doubly})
    requires KeptBlocks(c0, c, d, r, |files[f].blocks|)
    requires r.doubly < |c| && c[r.doubly] == c0[r.doubly]
    ensures FileOk(c, owner, f, files[f])
    ensures FileBytes(c, files[f]) == FileBytes(c0, files[f])
    ensures Describes(c, r, files[f])
  {
    var v := files[f];
    SameIndexBlocks(c0, d, v);
    assert FileOk(c0, owner, f, v);
    hide Describes, SecondLevelOk, ParseInode, WordAt, PtrOf, Grew;
    OwnSectorsKept(c0, u0, c, u, owner, files, f, d, r);
    assert IndexWord(c, v.doubly, 0) == IndexWord(c0, v.doubly, 0);
    assert forall p :: 0 <= p < SECTOR_SIZE * |v.blocks| ==> ByteAt(c, v, p) == ByteAt(c0, v, p);
  }

  /** A failed extension leaves every file as it was. */
  lemma GrowthFailed(c0: seq<Block>, u0: seq<bool>, c: seq<Block>, u: seq<bool>, owner: map<nat, Owner>,
                     files: map<nat, FileView>, f: nat, d: DiskInode, r: DiskInode)
    requires Consistent(c0, u0, owner, files) && f in files && Describes(c0, d, files[f])
    requires |r.direct| == DIRECT_PTRS && r == d.(direct := r.direct)
    requires AllBelow(r.direct, |c|) && |c| <= NO_SECTOR
    requires Grew(c0, u0, c, u, {r.indirect, r.doubly})
    requires KeptBlocks(c0, c, d, r, |files[f].blocks|)
    requires r.doubly < |c| && c[r.doubly] == c0[r.doubly]
    ensures Consistent(c, u, owner, files)
    ensures Describes(c, r, files[f])
    ensures FileBytes(c, files[f]) == FileBytes(c0, files[f])
    ensures forall g :: g != f ==> Keeps(c0, c, files, g)
  {
    hide FileOk, Describes, FileBytes, KeptBlocks, StillDescribed, MapInodeOk, AllBelow;
    SameIndexBlocks(c0, d, files[f]);
    OwnInodeAndIndex(c0, u0, owner, files, f);
    MapInodeKept(c0, u0, c, u);
    OwnFileKept(c0, u0, c, u, owner, files, f, d, r);
    forall g | g in files && g != f
      ensures FileOk(c, owner, g, files[g]) && Keeps(c0, c, files, g)
    {
      FailedSparesOther(c0, u0, c, u, owner, files, f, d, r, g);
    }
  }

  lemma FailedSparesOther(c0: seq<Block>, u0: seq<bool>, c: seq<Block>, u: seq<bool>, owner: map<nat, Owner>,
                          files: map<nat, FileView>, f: nat, d: DiskInode, r: DiskInode, g: nat)
    requires Consistent(c0, u0, owner, files) && f in files && Describes(c0, d, files[f])
    requires r == d.(direct := r.direct)
    requires Grew(c0, u0, c, u, {r.indirect, r.doubly})
    requires g in files && g != f
    ensures FileOk(c, owner, g, files[g]) && Keeps(c0, c, files, g)
  {
    hide FileOk, Describes, FileBytes, Keeps, MapInodeOk;
    SameIndexBlocks(c0, d, files[f]);
    GrowthSparesOthers(c0, u0, c, owner, owner, files, f, g);
  }

  /** The owners once `run` has become blocks `cur`, `cur + 1`, ... of `f`. */
  ghost function WithBlocks(owner: map<nat, Owner>, f: nat, cur: nat, run: seq<nat>): map<nat, Owner> {
    if run == [] then owner
    else
      var last := |run| - 1;
      WithBlocks(owner, f, cur, run[..last])[run[last] := DataOf(f, cur + last)]
  }

  lemma {:induction false} WithBlocksAt(owner: map<nat, Owner>, f: nat, cur: nat, run: seq<nat>, i: nat)
    requires NoDup(run) && i < |run|
    ensures Owns(WithBlocks(owner, f, cur, run), run[i], DataOf(f, cur + i))
  {
    var last := |run| - 1;
    if i < last {
      WithBlocksAt(owner, f, cur, run[..last], i);
    }
  }

  lemma {:induction false} WithBlocksElsewhere(owner: map<nat, Owner>, f: nat, cur: nat, run: seq<nat>, s: nat)
    requires s !in run
    ensures var o := WithBlocks(owner, f, cur, run); (s in o <==> s in owner) && (s in o ==> o[s] == owner[s])
  {
    if run != [] {
      var last := |run| - 1;
      assert run == run[..last] + [run[last]];
      WithBlocksElsewhere(owner, f, cur, run[..last], s);
    }
  }

  lemma WithBlocksOwns(owner: map<nat, Owner>, f: nat, cur: nat, run: seq<nat>)
    requires NoDup(run)
    ensures var o := WithBlocks(owner, f, cur, run);
      && (forall i :: 0 <= i < |run| ==> Owns(o, run[i], DataOf(f, cur + i)))
      && (forall s :: s !in run ==> (s in o <==> s in owner) && (s in o ==> o[s] == owner[s]))
  {
    hide WithBlocks, NoDup, Owns;
    var o := WithBlocks(owner, f, cur, run);
    forall i | 0 <= i < |run|
      ensures Owns(o, run[i], DataOf(f, cur + i))
    {
      WithBlocksAt(owner, f, cur, run, i);
    }
    forall s | s !in run
      ensures (s in o <==> s in owner) && (s in o ==> o[s] == owner[s])
    {
      WithBlocksElsewhere(owner, f, cur, run, s);
    }
  }

  ghost function GrownOwner(owner: map<nat, Owner>, f: nat, cur: nat, run: seq<nat>, second: nat): map<nat, Owner> {
    var o := WithBlocks(owner, f, cur, run);
    if cur <= SINGLE_LIMIT < cur + |run| then o[second := SecondLevelOf(f)] else o
  }

  /** Old owners keep their sectors; the new sectors belong to `f` and were free before. */
  lemma GrownOwnerOwns(c: seq<Block>, u0: seq<bool>, u: seq<bool>, owner: map<nat, Owner>, f: nat, cur: nat,
                       run: seq<nat>, second: nat)
    requires OwnersAllocated(owner, u0) && TakenRun(u0, c, u, run)
    requires |u| == |u0| && forall s :: 0 <= s < |u0| && u0[s] ==> u[s]
    requires cur <= SINGLE_LIMIT < cur + |run| ==> IsNew(u0, u, second) && second !in run
    ensures var o := GrownOwner(owner, f, cur, run, second);
      && OwnersAllocated(o, u)
      && (forall s :: s in owner ==> Owns(o, s, owner[s]))
      && (forall i :: 0 <= i < |run| ==> Owns(o, run[i], DataOf(f, cur + i)))
      && (cur <= SINGLE_LIMIT < cur + |run| ==> Owns(o, second, SecondLevelOf(f)))
  {
    WithBlocksOwns(owner, f, cur, run);
    var o := GrownOwner(owner, f, cur, run, second);
    forall i | 0 <= i < |run|
      ensures !u0[run[i]] && u[run[i]] && 0 < run[i] < |u|
    {
      assert Taken(u0, c, u, run[i]);
    }
    forall s | s in owner
      ensures Owns(o, s, owner[s])
    {
      assert s !in run;
    }
    forall s | s in o
      ensures 0 < s < |u| && u[s]
    {
      if s in run {
        var i :| 0 <= i < |run| && run[i] == s;
      } else if s !in owner {
        assert s == second;
      }
    }
  }

  /** Everything known about a file when its extension has succeeded and its inode is about to be written. */
  ghost predicate Extended(c0: seq<Block>, u0: seq<bool>, c: seq<Block>, u: seq<bool>, owner: map<nat, Owner>,
                           files: map<nat, FileView>, f: nat, d: DiskInode, r: DiskInode, run: seq<nat>): (b: bool)
    ensures b ==> f in files && |r.direct| == DIRECT_PTRS && |c| == |c0| == |u| == |u0|
  {
    && Consistent(c0, u0, owner, files) && f in files && Describes(c0, d, files[f])
    && |c| <= NO_SECTOR
    && |r.direct| == DIRECT_PTRS && r == d.(direct := r.direct, length := r.length)
    && AllBelow(r.direct, |c|)
    && Grew(c0, u0, c, u, {r.indirect, r.doubly})
    && files[f].length <= r.length
    && |files[f].blocks| <= BytesToSectors(r.length) <= GROWTH_LIMIT
    && KeptBlocks(c0, c, d, r, |files[f].blocks|)
    && GainedBlocks(u0, c, u, r, |files[f].blocks|, BytesToSectors(r.length), run)
    && (BytesToSectors(r.length) <= SINGLE_LIMIT ==> IndexWord(c, r.doubly, 0) == IndexWord(c0, r.doubly, 0))
  }

  function GrownView(v: FileView, length: nat, run: seq<nat>): FileView {
    v.(length := length, blocks := v.blocks + run)
  }

  /** Writing the inode does not disturb the index blocks. */
  lemma InodeApart(c0: seq<Block>, u0: seq<bool>, c: seq<Block>, u: seq<bool>, owner: map<nat, Owner>,
                   files: map<nat, FileView>, f: nat, d: DiskInode, r: DiskInode, run: seq<nat>)
    requires Extended(c0, u0, c, u, owner, files, f, d, r, run)
    ensures 0 < f < |c| && u0[f] && f !in run
    ensures MapInodeOk(c[f := InodeBlock(r)], u)
    ensures r.indirect < |c| && r.indirect != f && r.doubly < |c| && r.doubly != f && r.indirect != r.doubly
    ensures BytesToSectors(r.length) > SINGLE_LIMIT ==> IndexWord(c, r.doubly, 0) != f
    ensures BytesToSectors(r.length) > SINGLE_LIMIT && |files[f].blocks| > SINGLE_LIMIT ==>
      IndexWord(c, r.doubly, 0) == IndexWord(c0, r.doubly, 0)
    ensures r.indirect == files[f].indirect && r.doubly == files[f].doubly
    ensures OwnsItsSectors(c0, owner, f, files[f])
    ensures forall k :: 0 <= k < |files[f].blocks| ==>
      files[f].blocks[k] < |c| && files[f].blocks[k] != f && c[files[f].blocks[k]] == c0[files[f].blocks[k]]
  {
    var v := files[f];
    assert Owns(owner, f, InodeOf(f)) && Owns(owner, v.indirect, IndirectOf(f)) && Owns(owner, v.doubly, DoublyOf(f));
    assert forall i :: 0 <= i < |run| ==> Taken(u0, c, u, run[i]);
    assert forall k :: 0 <= k < |v.blocks| ==> Owns(owner, v.blocks[k], DataOf(f, k));
    MapInodeKept(c0, u0, c[f := InodeBlock(r)], u);
  }

  /** After the inode is written, the new inode finds old and new blocks alike. */
  lemma GrownDescribes(c0: seq<Block>, u0: seq<bool>, c: seq<Block>, u: seq<bool>, owner: map<nat, Owner>,
                       files: map<nat, FileView>, f: nat, d: DiskInode, r: DiskInode, run: seq<nat>)
    requires Extended(c0, u0, c, u, owner, files, f, d, r, run) && f < |c|
    ensures Describes(c[f := InodeBlock(r)], r, GrownView(files[f], r.length, run))
    ensures ParseInode(c[f := InodeBlock(r)][f]) == r
    ensures PointersInRange(c[f := InodeBlock(r)], r.indirect, r.doubly)
  {
    var v, c2 := files[f], c[f := InodeBlock(r)];
    InodeApart(c0, u0, c, u, owner, files, f, d, r, run);
    GrownPointers(c0, u0, c, u, owner, files, f, d, r, run);
    InodeRoundTrip(r);
    hide Extended, PtrOf, InodeBlock, ParseInode, PointersInRange;
    forall k | 0 <= k < |v.blocks + run|
      ensures PtrOf(c2, r, k) == (v.blocks + run)[k]
    {
      GrownPtr(c0, u0, c, u, owner, files, f, d, r, run, k);
    }
  }

  lemma GrownPointers(c0: seq<Block>, u0: seq<bool>, c: seq<Block>, u: seq<bool>, owner: map<nat, Owner>,
                      files: map<nat, FileView>, f: nat, d: DiskInode, r: DiskInode, run: seq<nat>)
    requires Extended(c0, u0, c, u, owner, files, f, d, r, run) && f < |c|
    ensures Storable(r) && AllBelow(r.direct, |c|) && |files[f].blocks + run| <= GROWTH_LIMIT
    ensures PointersInRange(c[f := InodeBlock(r)], r.indirect, r.doubly)
  {
    InodeApart(c0, u0, c, u, owner, files, f, d, r, run);
    assert FileOk(c0, owner, f, files[f]);
    hide PtrOf, ZeroTail, OwnsItsSectors, TakenRun, InodeBlock;
    var c2 := c[f := InodeBlock(r)];
    assert forall i :: 0 <= i < INDIRECT_BLOCK_PTRS ==> IndexWord(c2, r.indirect, i) == IndexWord(c, r.indirect, i);
  }

  lemma GrownPtr(c0: seq<Block>, u0: seq<bool>, c: seq<Block>, u: seq<bool>, owner: map<nat, Owner>,
                 files: map<nat, FileView>, f: nat, d: DiskInode, r: DiskInode, run: seq<nat>, k: nat)
    requires Extended(c0, u0, c, u, owner, files, f, d, r, run) && f < |c|
    requires k < |files[f].blocks + run|
    ensures PtrOf(c[f := InodeBlock(r)], r, k) == (files[f].blocks + run)[k]
  {
    hide OwnsItsSectors, PointersInRange, ZeroTail, TakenRun, SecondLevelOk, MapInodeOk, WordAt, InodeBlock;
    InodeApart(c0, u0, c, u, owner, files, f, d, r, run);
    assert k >= SINGLE_LIMIT ==> (k - SINGLE_LIMIT) / INDIRECT_BLOCK_PTRS == 0;
    assert PtrOf(c[f := InodeBlock(r)], r, k) == PtrOf(c, r, k);
    if k < |files[f].blocks| {
      assert PtrOf(c, r, k) == PtrOf(c0, d, k) == files[f].blocks[k];
    }
  }

  lemma GrownByteAt(c0: seq<Block>, u0: seq<bool>, c: seq<Block>, u: seq<bool>, owner: map<nat, Owner>,
                    files: map<nat, FileView>, f: nat, d: DiskInode, r: DiskInode, run: seq<nat>, p: nat)
    requires Extended(c0, u0, c, u, owner, files, f, d, r, run) && f < |c|
    ensures ByteAt(c[f := InodeBlock(r)], GrownView(files[f], r.length, run), p) ==
      if p < SECTOR_SIZE * |files[f].blocks| then ByteAt(c0, files[f], p) else 0
  {
    InodeApart(c0, u0, c, u, owner, files, f, d, r, run);
    hide Consistent, KeptBlocks, Describes, OwnsItsSectors, PtrOf;
    var v, k := files[f], p / SECTOR_SIZE;
    if |v.blocks| <= k < |v.blocks + run| {
      assert Taken(u0, c, u, run[k - |v.blocks|]);
    }
  }

  lemma ExtendedFrom(c0: seq<Block>, u0: seq<bool>, c: seq<Block>, u: seq<bool>, owner: map<nat, Owner>,
                     files: map<nat, FileView>, f: nat, d: DiskInode, r: DiskInode, run: seq<nat>)
    requires Extended(c0, u0, c, u, owner, files, f, d, r, run)
    ensures ZeroTail(c0, files[f]) && |files[f].blocks| == BytesToSectors(files[f].length)
    ensures files[f].length <= r.length
  {
    assert FileOk(c0, owner, f, files[f]);
  }

  /** Old bytes stay, and all the new room reads as zero. */
  lemma GrownBytes(c0: seq<Block>, u0: seq<bool>, c: seq<Block>, u: seq<bool>, owner: map<nat, Owner>,
                   files: map<nat, FileView>, f: nat, d: DiskInode, r: DiskInode, run: seq<nat>)
    requires Extended(c0, u0, c, u, owner, files, f, d, r, run) && f < |c|
    ensures var v' := GrownView(files[f], r.length, run);
      && FileBytes(c[f := InodeBlock(r)], v') == Grown(FileBytes(c0, files[f]), r.length)
      && ZeroTail(c[f := InodeBlock(r)], v')
  {
    hide Extended, ByteAt, InodeBlock;
    var v, v' := files[f], GrownView(files[f], r.length, run);
    var c2 := c[f := InodeBlock(r)];
    ExtendedFrom(c0, u0, c, u, owner, files, f, d, r, run);
    Covers(v.length);
    forall p: nat
      ensures ByteAt(c2, v', p) == if p < SECTOR_SIZE * |v.blocks| then ByteAt(c0, v, p) else 0
    {
      GrownByteAt(c0, u0, c, u, owner, files, f, d, r, run, p);
    }
  }

  /**
   A successful extension followed by writing the inode: the file is longer by zero
   bytes, it owns its new sectors, and every other file is untouched.
   */
  lemma GrowthDone(c0: seq<Block>, u0: seq<bool>, c: seq<Block>, u: seq<bool>, owner: map<nat, Owner>,
                   files: map<nat, FileView>, f: nat, d: DiskInode, r: DiskInode, run: seq<nat>)
    requires Extended(c0, u0, c, u, owner, files, f, d, r, run) && f < |c|
    ensures
      var c2, v' := c[f := InodeBlock(r)], GrownView(files[f], r.length, run);
      var o := GrownOwner(owner, f, |files[f].blocks|, run, IndexWord(c, r.doubly, 0));
      && Consistent(c2, u, o, files[f := v'])
      && Describes(c2, r, v')
      && files[f].length <= r.length
      && FileBytes(c2, v') == Grown(FileBytes(c0, files[f]), r.length)
      && (forall g :: g != f ==> Keeps(c0, c2, files, g))
  {
    hide FileOk, Describes, FileBytes, KeptBlocks, GrownOwner, MapInodeOk;
    InodeApart(c0, u0, c, u, owner, files, f, d, r, run);
    var c2, v, v' := c[f := InodeBlock(r)], files[f], GrownView(files[f], r.length, run);
    var second := IndexWord(c, r.doubly, 0);
    var o := GrownOwner(owner, f, |v.blocks|, run, second);
    GrownOwnerFacts(c0, u0, c, u, owner, files, f, d, r, run);
    forall g | g in files && g != f
      ensures FileOk(c2, o, g, files[g]) && Keeps(c0, c2, files, g)
    {
      GrownSparesOther(c0, u0, c, u, owner, files, f, d, r, run, g);
    }
    GrownFileOk(c0, u0, c, u, owner, files, f, d, r, run);
  }

  lemma GrownSparesOther(c0: seq<Block>, u0: seq<bool>, c: seq<Block>, u: seq<bool>, owner: map<nat, Owner>,
                         files: map<nat, FileView>, f: nat, d: DiskInode, r: DiskInode, run: seq<nat>, g: nat)
    requires Extended(c0, u0, c, u, owner, files, f, d, r, run) && f < |c|
    requires g in files && g != f
    ensures
      var c2 := c[f := InodeBlock(r)];
      && FileOk(c2, GrownOwner(owner, f, |files[f].blocks|, run, IndexWord(c, r.doubly, 0)), g, files[g])
      && Keeps(c0, c2, files, g)
  {
    hide ZeroTail, OwnsItsSectors, PointersInRange;
    assert r.indirect == files[f].indirect && r.doubly == files[f].doubly;
    hide FileOk, Describes, FileBytes, KeptBlocks, GrownOwner;
    var c2, second := c[f := InodeBlock(r)], IndexWord(c, r.doubly, 0);
    var o := GrownOwner(owner, f, |files[f].blocks|, run, second);
    GrownOwnerFacts(c0, u0, c, u, owner, files, f, d, r, run);
    GrowthSparesOthers(c0, u0, c2, owner, o, files, f, g);
  }

  lemma GrownFileOk(c0: seq<Block>, u0: seq<bool>, c: seq<Block>, u: seq<bool>, owner: map<nat, Owner>,
                    files: map<nat, FileView>, f: nat, d: DiskInode, r: DiskInode, run: seq<nat>)
    requires Extended(c0, u0, c, u, owner, files, f, d, r, run) && f < |c|
    ensures
      var c2, v' := c[f := InodeBlock(r)], GrownView(files[f], r.length, run);
      && FileOk(c2, GrownOwner(owner, f, |files[f].blocks|, run, IndexWord(c, r.doubly, 0)), f, v')
      && Describes(c2, r, v')
      && FileBytes(c2, v') == Grown(FileBytes(c0, files[f]), r.length)
  {
    GrownDescribes(c0, u0, c, u, owner, files, f, d, r, run);
    GrownBytes(c0, u0, c, u, owner, files, f, d, r, run);
    GrownOwns(c0, u0, c, u, owner, files, f, d, r, run);
    GrownSecondLevel(c0, u0, c, u, owner, files, f, d, r, run);
    GrownOwnerFacts(c0, u0, c, u, owner, files, f, d, r, run);
    InodeApart(c0, u0, c, u, owner, files, f, d, r, run);
    hide Extended, Describes, FileBytes, OwnsItsSectors, SecondLevelOk, PointersInRange, ZeroTail, GrownOwner,
         InodeBlock, ParseInode;
    assert BytesToSectors(r.length) <= GROWTH_LIMIT;
  }

  lemma GrownSecondLevel(c0: seq<Block>, u0: seq<bool>, c: seq<Block>, u: seq<bool>, owner: map<nat, Owner>,
                         files: map<nat, FileView>, f: nat, d: DiskInode, r: DiskInode, run: seq<nat>)
    requires Extended(c0, u0, c, u, owner, files, f, d, r, run) && f < |c|
    ensures SecondLevelOk(c[f := InodeBlock(r)], GrownView(files[f], r.length, run))
  {
    var v, c2, second := files[f], c[f := InodeBlock(r)], IndexWord(c, r.doubly, 0);
    InodeApart(c0, u0, c, u, owner, files, f, d, r, run);
    assert FileOk(c0, owner, f, v);
    hide PtrOf, ZeroTail, InodeBlock, Describes;
    assert IndexWord(c2, r.doubly, 0) == second;
    if |v.blocks| > SINGLE_LIMIT {
      assert Owns(owner, second, SecondLevelOf(f));
      SameWords(c0, c, second);
    }
    if |v.blocks + run| > SINGLE_LIMIT {
      SameWords(c, c2, second);
    }
  }

  lemma GrownOwnerFacts(c0: seq<Block>, u0: seq<bool>, c: seq<Block>, u: seq<bool>, owner: map<nat, Owner>,
                        files: map<nat, FileView>, f: nat, d: DiskInode, r: DiskInode, run: seq<nat>)
    requires Extended(c0, u0, c, u, owner, files, f, d, r, run)
    ensures |files[f].blocks + run| == BytesToSectors(r.length)
    ensures
      var cur, second := |files[f].blocks|, IndexWord(c, r.doubly, 0);
      var o := GrownOwner(owner, f, cur, run, second);
      && OwnersAllocated(o, u)
      && (forall s :: s in owner ==> Owns(o, s, owner[s]))
      && (forall i :: 0 <= i < |run| ==> Owns(o, run[i], DataOf(f, cur + i)))
      && (cur <= SINGLE_LIMIT < cur + |run| ==> Owns(o, second, SecondLevelOf(f)))
  {
    hide FileOk, KeptBlocks, Describes, PtrOf, GrownOwner;
    GrownOwnerOwns(c, u0, u, owner, f, |files[f].blocks|, run, IndexWord(c, r.doubly, 0));
  }

  lemma GrownOwns(c0: seq<Block>, u0: seq<bool>, c: seq<Block>, u: seq<bool>, owner: map<nat, Owner>,
                  files: map<nat, FileView>, f: nat, d: DiskInode, r: DiskInode, run: seq<nat>)
    requires Extended(c0, u0, c, u, owner, files, f, d, r, run) && f < |c|
    ensures OwnsItsSectors(c[f := InodeBlock(r)],
      GrownOwner(owner, f, |files[f].blocks|, run, IndexWord(c, r.doubly, 0)), f, GrownView(files[f], r.length, run))
  {
    hide Extended, GrownOwner, InodeBlock, WordAt, MapInodeOk, OwnersAllocated;
    var v, v' := files[f], GrownView(files[f], r.length, run);
    var second := IndexWord(c, r.doubly, 0);
    var o := GrownOwner(owner, f, |v.blocks|, run, second);
    InodeApart(c0, u0, c, u, owner, files, f, d, r, run);
    GrownOwnerFacts(c0, u0, c, u, owner, files, f, d, r, run);
    forall k | 0 <= k < |v'.blocks|
      ensures Owns(o, v'.blocks[k], DataOf(f, k))
    {
      if k < |v.blocks| {
        assert Owns(owner, v.blocks[k], DataOf(f, k));
      } else {
        assert Owns(o, run[k - |v.blocks|], DataOf(f, |v.blocks| + (k - |v.blocks|)));
      }
    }
  }

  /** Open inodes of other files stay good, and `e` becomes the open inode of `f`. */
  lemma OpenUpdated(c0: seq<Block>, c: seq<Block>, files: map<nat, FileView>, v: FileView, open: map<nat, OpenInode>,
                    f: nat, e: OpenInode)
    requires OpenOk(c0, files, open)
    requires forall g :: g != f ==> Keeps(c0, c, files, g)
    requires Describes(c, e.data, v)
    ensures OpenOk(c, files[f := v], open[f := e])
  {
    hide Describes, FileBytes;
    forall g | g in open && g != f
      ensures Describes(c, open[g].data, files[g])
    {
      assert Keeps(c0, c, files, g) && StillDescribed(c0, c, files, g);
    }
  }

  lemma OpenKept(c0: seq<Block>, c: seq<Block>, files: map<nat, FileView>, open: map<nat, OpenInode>)
    requires OpenOk(c0, files, open)
    requires forall g :: g in files ==> StillDescribed(c0, c, files, g)
    ensures OpenOk(c, files, open)
  {
    hide Describes;
  }

  /** What an open file's inode tells about the sectors it names. */
  lemma OpenFacts(contents: seq<Block>, used: seq<bool>, owner: map<nat, Owner>, files: map<nat, FileView>,
                  open: map<nat, OpenInode>, f: nat)
    requires Consistent(contents, used, owner, files) && OpenOk(contents, files, open) && f in open
    ensures f in files && Describes(contents, open[f].data, files[f])
    ensures
      var d, v := open[f].data, files[f];
      && f < |contents| && used[f]
      && Storable(d) && d.length == v.length && d.directory == v.directory
      && |v.blocks| == BytesToSectors(d.length) <= GROWTH_LIMIT
      && d.indirect == v.indirect < |contents| && used[d.indirect]
      && d.doubly == v.doubly < |contents| && used[d.doubly]
      && d.indirect != d.doubly
      && IndexWord(contents, d.doubly, 0) < |contents|
      && AllBelow(d.direct, |contents|)
      && (forall k :: 0 <= k < |v.blocks| ==> PtrOf(contents, d, k) == v.blocks[k] < |contents|)
  {
    var v := files[f];
    assert FileOk(contents, owner, f, v);
    assert Owns(owner, f, InodeOf(f)) && Owns(owner, v.indirect, IndirectOf(f)) && Owns(owner, v.doubly, DoublyOf(f));
    assert forall k :: 0 <= k < |v.blocks| ==> Owns(owner, v.blocks[k], DataOf(f, k));
  }

  // ---------- Reading and writing within one sector ----------

  /** How many of `size` bytes at `offset` lie before the end of file. */
  function Available(length: nat, size: nat, offset: nat): nat {
    if offset >= length then 0 else if size < length - offset then size else length - offset
  }

  /** `data` is what `bytes` holds at `offset`; nothing is there to be had past the end. */
  ghost predicate IsPart(bytes: seq<byte>, offset: nat, data: seq<byte>) {
    data == [] || (offset + |data| <= |bytes| && data == bytes[offset..offset + |data|])
  }

  /** How many of `left` bytes at `pos` to copy now: no more than the sector or the file holds. */
  function ChunkSize(length: nat, pos: nat, left: nat): (chunk: int)
    requires left > 0
    ensures chunk <= left && chunk <= length - pos && pos % SECTOR_SIZE + chunk <= SECTOR_SIZE
    ensures chunk <= 0 <==> pos >= length
    ensures chunk == left || chunk == length - pos || pos % SECTOR_SIZE + chunk == SECTOR_SIZE
  {
    var inodeLeft, sectorLeft := length - pos, SECTOR_SIZE - pos % SECTOR_SIZE;
    var minLeft := if inodeLeft < sectorLeft then inodeLeft else sectorLeft;
    if left < minLeft then left else minLeft
  }

  /** The stretch begins and ends at sector boundaries, so that no bounce buffer is needed for it. */
  ghost predicate WholeSectors(offset: nat, size: nat) {
    offset % SECTOR_SIZE == 0 && size % SECTOR_SIZE == 0
  }

  /** How many of `size` bytes at `offset` are copied; without a bounce buffer, whole sectors only. */
  function Copied(length: nat, size: nat, offset: nat, bounceOk: bool): (n: nat)
    ensures n <= Available(length, size, offset)
  {
    var a := Available(length, size, offset);
    if bounceOk then a else if offset % SECTOR_SIZE == 0 then a - a % SECTOR_SIZE else 0
  }

  /** The first `n` bytes have been copied, in whole sectors if there is no bounce buffer. */
  ghost predicate CopiedSoFar(length: nat, size: nat, offset: nat, bounceOk: bool, n: nat) {
    && n <= Available(length, size, offset)
    && (!bounceOk ==> n % SECTOR_SIZE == 0 && (n > 0 ==> offset % SECTOR_SIZE == 0))
  }

  lemma CopyStarts(length: nat, size: nat, offset: nat, bounceOk: bool)
    ensures CopiedSoFar(length, size, offset, bounceOk, 0)
  {
  }

  lemma CopyGoesOn(length: nat, size: nat, offset: nat, bounceOk: bool, n: nat)
    requires CopiedSoFar(length, size, offset, bounceOk, n) && n < size
    ensures
      var pos, chunk := offset + n, ChunkSize(length, offset + n, size - n);
      chunk > 0 && (bounceOk || (pos % SECTOR_SIZE == 0 && chunk == SECTOR_SIZE)) ==>
        CopiedSoFar(length, size, offset, bounceOk, n + chunk)
  {
  }

  /** Copying ends with everything copied, at the end of file, or for want of a bounce buffer. */
  lemma CopyEnds(length: nat, size: nat, offset: nat, bounceOk: bool, n: nat)
    requires CopiedSoFar(length, size, offset, bounceOk, n)
    requires n < size ==>
      var pos, chunk := offset + n, ChunkSize(length, offset + n, size - n);
      chunk <= 0 || !(bounceOk || (pos % SECTOR_SIZE == 0 && chunk == SECTOR_SIZE))
    ensures n == Copied(length, size, offset, bounceOk)
  {
    var a := Available(length, size, offset);
    if n < a {
      assert !bounceOk && ChunkSize(length, offset + n, size - n) > 0;
      if offset % SECTOR_SIZE == 0 {
        assert (offset + n) % SECTOR_SIZE == 0;
        assert a - n < SECTOR_SIZE;
      }
    }
  }

  lemma CompleteIff(length: nat, size: nat, offset: nat, bounceOk: bool)
    ensures Copied(length, size, offset, bounceOk) == size <==>
      size == 0 || (offset + size <= length && (bounceOk || WholeSectors(offset, size)))
  {
  }

  lemma BlockInside(length: nat, pos: nat)
    requires pos < length
    ensures pos / SECTOR_SIZE < BytesToSectors(length)
  {
  }

  /** A byte before the end of file lies in the sector its inode points to. */
  lemma LocateInside(contents: seq<Block>, used: seq<bool>, owner: map<nat, Owner>, files: map<nat, FileView>,
                     open: map<nat, OpenInode>, f: nat, pos: nat)
    requires Consistent(contents, used, owner, files) && OpenOk(contents, files, open) && f in open && f in files
    requires pos < files[f].length
    ensures
      var k := pos / SECTOR_SIZE;
      && k < |files[f].blocks|
      && Locate(contents, open[f].data, pos) == files[f].blocks[k] < |contents|
  {
    hide Consistent, OpenOk, Describes, Storable, AllBelow, PtrOf, IndexWord, BytesToSectors;
    OpenFacts(contents, used, owner, files, open, f);
    BlockInside(files[f].length, pos);
  }

  /** A stretch of a file inside one sector is a slice of that sector. */
  lemma ChunkOf(contents: seq<Block>, v: FileView, pos: nat, chunk: nat)
    requires pos % SECTOR_SIZE + chunk <= SECTOR_SIZE && pos + chunk <= v.length
    requires pos / SECTOR_SIZE < |v.blocks| && v.blocks[pos / SECTOR_SIZE] < |contents|
    ensures FileBytes(contents, v)[pos..pos + chunk] ==
      contents[v.blocks[pos / SECTOR_SIZE]][pos % SECTOR_SIZE..pos % SECTOR_SIZE + chunk]
  {
    forall p | pos <= p < pos + chunk
      ensures FileBytes(contents, v)[p] == contents[v.blocks[pos / SECTOR_SIZE]][pos % SECTOR_SIZE + (p - pos)]
    {
      assert p / SECTOR_SIZE == pos / SECTOR_SIZE && p % SECTOR_SIZE == pos % SECTOR_SIZE + (p - pos);
    }
  }

  /** A sector with `data` copied over it at `ofs`. */
  function Patched(block: Block, ofs: nat, data: seq<byte>): (r: Block)
    requires ofs + |data| <= SECTOR_SIZE
  {
    Overlay(block, ofs, data)
  }

  /** Patching the sector under `pos` overlays the file at `pos`. */
  lemma PatchIsOverlay(bytes0: seq<byte>, bytes: seq<byte>, pos: nat, data: seq<byte>, block: Block)
    requires pos % SECTOR_SIZE + |data| <= SECTOR_SIZE && pos + |data| <= |bytes0|
    requires forall q :: 0 <= q < SECTOR_SIZE && SECTOR_SIZE * (pos / SECTOR_SIZE) + q < |bytes0| ==>
      block[q] == bytes0[SECTOR_SIZE * (pos / SECTOR_SIZE) + q]
    requires BlockReplaced(bytes0, bytes, pos / SECTOR_SIZE, Patched(block, pos % SECTOR_SIZE, data))
    ensures bytes == Overlay(bytes0, pos, data)
  {
    var k, ofs := pos / SECTOR_SIZE, pos % SECTOR_SIZE;
    forall p | 0 <= p < |bytes|
      ensures bytes[p] == Overlay(bytes0, pos, data)[p]
    {
      assert p == SECTOR_SIZE * (p / SECTOR_SIZE) + p % SECTOR_SIZE;
    }
  }

  /** The file after `data` has been written at `offset` and the file has `length` bytes. */
  function Written(bytes: seq<byte>, length: nat, offset: nat, data: seq<byte>): (r: seq<byte>)
    ensures |r| == length
  {
    Overlay(Grown(bytes, length), offset, data)
  }

  /** The first `n` bytes of `buffer` are at `offset`, and nothing else has changed but for zeros up to `length`. */
  ghost predicate WriteOutcome(bytes0: seq<byte>, bytes: seq<byte>, length: nat, offset: nat, buffer: seq<byte>,
                               n: nat) {
    && |bytes0| <= length
    && n <= |buffer|
    && n <= Available(length, |buffer|, offset)
    && bytes == Written(bytes0, length, offset, buffer[..n])
  }

  lemma OutcomeNone(bytes: seq<byte>, offset: nat, buffer: seq<byte>)
    ensures WriteOutcome(bytes, bytes, |bytes|, offset, buffer, 0)
  {
  }

  lemma OutcomeNext(bytes0: seq<byte>, bytes: seq<byte>, length: nat, offset: nat, buffer: seq<byte>, n: nat,
                    chunk: nat)
    requires WriteOutcome(bytes0, bytes, length, offset, buffer, n)
    requires 0 < chunk && n + chunk <= |buffer| && offset + n + chunk <= length
    ensures WriteOutcome(bytes0, Overlay(bytes, offset + n, buffer[n..n + chunk]), length, offset, buffer, n + chunk)
  {
    var piece := buffer[n..n + chunk];
    assert buffer[..n] + piece == buffer[..n + chunk];
    assert Overlay(bytes, offset + n, piece) == Written(bytes0, length, offset, buffer[..n + chunk]);
  }

  lemma OutcomeAfterGrowth(bytes0: seq<byte>, bytes1: seq<byte>, bytes: seq<byte>, length: nat, offset: nat,
                           buffer: seq<byte>, n: nat)
    requires |bytes0| <= length && bytes1 == Grown(bytes0, length)
    requires WriteOutcome(bytes1, bytes, length, offset, buffer, n)
    ensures WriteOutcome(bytes0, bytes, length, offset, buffer, n)
  {
    assert Grown(bytes1, length) == bytes1;
  }

  /** What writing one sector of `f` promises, seen from the patched block. */
  lemma ChunkWrite(c0: seq<Block>, used: seq<bool>, owner: map<nat, Owner>, files: map<nat, FileView>, f: nat, pos: nat,
                   piece: seq<byte>)
    requires Consistent(c0, used, owner, files) && f in files
    requires pos % SECTOR_SIZE + |piece| <= SECTOR_SIZE && pos + |piece| <= files[f].length
    requires pos / SECTOR_SIZE < |files[f].blocks| && files[f].blocks[pos / SECTOR_SIZE] < |c0|
    ensures
      var s := files[f].blocks[pos / SECTOR_SIZE];
      var c := c0[s := Patched(c0[s], pos % SECTOR_SIZE, piece)];
      && Consistent(c, used, owner, files)
      && (forall g :: g in files ==> StillDescribed(c0, c, files, g))
      && FileBytes(c, files[f]) == Overlay(FileBytes(c0, files[f]), pos, piece)
      && (forall g :: g in files && g != f ==> FileBytes(c, files[g]) == FileBytes(c0, files[g]))
  {
    hide Consistent, StillDescribed, FileBytes, BlockReplaced;
    var v, k, ofs := files[f], pos / SECTOR_SIZE, pos % SECTOR_SIZE;
    var s := v.blocks[k];
    var block := Patched(c0[s], ofs, piece);
    var c := c0[s := block];
    SectorIsBytes(c0, used, owner, files, f, k);
    assert forall q :: 0 <= q < SECTOR_SIZE && SECTOR_SIZE * k + q >= v.length ==> block[q] == 0;
    DataWrite(c0, used, owner, files, f, k, block);
    PatchIsOverlay(FileBytes(c0, v), FileBytes(c, v), pos, piece, c0[s]);
    forall g | g in files
      ensures StillDescribed(c0, c, files, g)
      ensures g != f ==> FileBytes(c, files[g]) == FileBytes(c0, files[g])
    {
      assert g != f ==> Keeps(c0, c, files, g);
    }
  }

  /** A data sector holds the file's bytes, and zeros after them. */
  lemma SectorIsBytes(c: seq<Block>, used: seq<bool>, owner: map<nat, Owner>, files: map<nat, FileView>, f: nat, k: nat)
    requires Consistent(c, used, owner, files) && f in files && k < |files[f].blocks| && files[f].blocks[k] < |c|
    ensures forall q :: 0 <= q < SECTOR_SIZE ==>
      c[files[f].blocks[k]][q] ==
        if SECTOR_SIZE * k + q < files[f].length then FileBytes(c, files[f])[SECTOR_SIZE * k + q] else 0
  {
    var v := files[f];
    assert ZeroTail(c, v);
    forall q | 0 <= q < SECTOR_SIZE
      ensures c[v.blocks[k]][q] == if SECTOR_SIZE * k + q < v.length then FileBytes(c, v)[SECTOR_SIZE * k + q] else 0
    {
      var p := SECTOR_SIZE * k + q;
      assert p / SECTOR_SIZE == k && p % SECTOR_SIZE == q;
      assert ByteAt(c, v, p) == c[v.blocks[k]][q];
    }
  }

  // ---------- When a write grows the file, and when it is complete ----------

  /** Looking up a block, or the place after the last, gives a sector number. */
  lemma LookupInRange(contents: seq<Block>, d: DiskInode, v: FileView, k: nat)
    requires |d.direct| == DIRECT_PTRS && AllBelow(d.direct, |contents|)
    requires d.indirect == v.indirect && d.doubly == v.doubly
    requires PointersInRange(contents, v.indirect, v.doubly) && SecondLevelOk(contents, v)
    requires IndexWord(contents, 0, 0) < |contents|
    requires k <= |v.blocks| <= GROWTH_LIMIT
    ensures PtrOf(contents, d, k) < |contents|
  {
    hide IndexWord;
    assert k >= SINGLE_LIMIT ==> (k - SINGLE_LIMIT) / INDIRECT_BLOCK_PTRS == 0;
    assert k >= SINGLE_LIMIT ==> (k - SINGLE_LIMIT) % INDIRECT_BLOCK_PTRS == k - SINGLE_LIMIT;
  }

  /** The end of file is found, even where the file has no sector yet. */
  lemma EndIsFound(contents: seq<Block>, used: seq<bool>, owner: map<nat, Owner>, files: map<nat, FileView>,
                   open: map<nat, OpenInode>, f: nat)
    requires Consistent(contents, used, owner, files) && OpenOk(contents, files, open) && f in open && f in files
    ensures Locate(contents, open[f].data, files[f].length) < |contents|
  {
    hide PtrOf, ZeroTail, OwnsItsSectors, PointersInRange, SecondLevelOk, IndexWord;
    assert FileOk(contents, owner, f, files[f]);
    LookupInRange(contents, open[f].data, files[f], files[f].length / SECTOR_SIZE);
  }

  /** A position counts as missing exactly when it lies past the end; the end itself is let through. */
  lemma MissingIffPastEnd(contents: seq<Block>, used: seq<bool>, owner: map<nat, Owner>, files: map<nat, FileView>,
                          open: map<nat, OpenInode>, f: nat, pos: int)
    requires Consistent(contents, used, owner, files) && OpenOk(contents, files, open) && f in open && f in files
    requires |contents| <= NO_SECTOR
    ensures Locate(contents, open[f].data, pos) == NO_SECTOR <==> pos < 0 || pos > files[f].length
  {
    assert open[f].data.length == files[f].length;
    assert pos < 0 || pos > files[f].length ==> Locate(contents, open[f].data, pos) == NO_SECTOR;
    hide Consistent, OpenOk, Describes, Locate;
    EndIsFound(contents, used, owner, files, open, f);
    if 0 <= pos < files[f].length {
      LocateInside(contents, used, owner, files, open, f, pos);
    }
  }

  // ---------- Creation ----------

  /** Everything owned keeps its contents when only unowned sectors change. */
  lemma UnownedChanges(c0: seq<Block>, u0: seq<bool>, c: seq<Block>, u: seq<bool>, owner: map<nat, Owner>,
                       files: map<nat, FileView>)
    requires Consistent(c0, u0, owner, files)
    requires |c| == |c0| && |u| == |u0| && forall s :: 0 <= s < |u0| && u0[s] ==> u[s]
    requires forall s :: s in owner ==> s < |c0| && c[s] == c0[s]
    requires MapInodeOk(c, u)
    ensures Consistent(c, u, owner, files)
    ensures forall g :: Keeps(c0, c, files, g)
  {
    hide FileOk, FileBytes, StillDescribed;
    forall g | g in files
      ensures FileOk(c, owner, g, files[g]) && Keeps(c0, c, files, g)
    {
      OthersKept(c0, c, u0, owner, owner, files, g);
    }
  }

  /** The owners once `f` is an empty file with index blocks `i` and `j`. */
  function WithFile(owner: map<nat, Owner>, f: nat, i: nat, j: nat): map<nat, Owner> {
    owner[f := InodeOf(f)][i := IndirectOf(f)][j := DoublyOf(f)]
  }

  ghost predicate NewFile(c: seq<Block>, u: seq<bool>, owner: map<nat, Owner>, files: map<nat, FileView>, f: nat,
                          d: DiskInode) {
    && |u| == |c| <= NO_SECTOR
    && 0 < f < |c| && u[f] && f !in owner && f !in files
    && 0 < d.indirect < |c| && u[d.indirect] && d.indirect !in owner && c[d.indirect] == ZEROS
    && 0 < d.doubly < |c| && u[d.doubly] && d.doubly !in owner && c[d.doubly] == ZEROS
    && d.indirect != d.doubly && f != d.indirect && f != d.doubly
    && Storable(d) && d.length == 0 && AllBelow(d.direct, |c|)
  }

  /** An inode with two zeroed index blocks and no data is a file of no bytes. */
  lemma EmptyFile(c: seq<Block>, u: seq<bool>, owner: map<nat, Owner>, files: map<nat, FileView>, f: nat, d: DiskInode)
    requires Consistent(c, u, owner, files) && NewFile(c, u, owner, files, f, d)
    ensures Consistent(c[f := InodeBlock(d)], u, WithFile(owner, f, d.indirect, d.doubly),
      files[f := FileView(d.directory, 0, d.indirect, d.doubly, [])])
    ensures var c' := c[f := InodeBlock(d)]; forall g :: g != f ==> Keeps(c, c', files, g)
    ensures Describes(c[f := InodeBlock(d)], d, FileView(d.directory, 0, d.indirect, d.doubly, []))
  {
    hide FileOk, FileBytes, StillDescribed, Describes, InodeBlock;
    var c', o := c[f := InodeBlock(d)], WithFile(owner, f, d.indirect, d.doubly);
    EmptyFileOk(c, u, owner, files, f, d);
    forall g | g in files && g != f
      ensures FileOk(c', o, g, files[g]) && Keeps(c, c', files, g)
    {
      OthersKept(c, c', u, owner, o, files, g);
    }
  }

  lemma EmptyFileOk(c: seq<Block>, u: seq<bool>, owner: map<nat, Owner>, files: map<nat, FileView>, f: nat,
                    d: DiskInode)
    requires NewFile(c, u, owner, files, f, d)
    ensures
      var c', v := c[f := InodeBlock(d)], FileView(d.directory, 0, d.indirect, d.doubly, []);
      FileOk(c', WithFile(owner, f, d.indirect, d.doubly), f, v) && Describes(c', d, v)
  {
    var c' := c[f := InodeBlock(d)];
    InodeRoundTrip(d);
    assert c'[f] == InodeBlock(d);
    hide InodeBlock, ParseInode;
    ZerosAreZeroWords();
    assert PointersInRange(c', d.indirect, d.doubly);
  }

  /** Growing a file that is not on disk yet is growing the empty file. */
  lemma CreateGrows(c1: seq<Block>, u1: seq<bool>, c: seq<Block>, u: seq<bool>, owner: map<nat, Owner>,
                    files: map<nat, FileView>, f: nat, d: DiskInode, r: DiskInode, run: seq<nat>)
    requires Consistent(c1, u1, owner, files) && NewFile(c1, u1, owner, files, f, d)
    requires |r.direct| == DIRECT_PTRS && r == d.(direct := r.direct, length := r.length) && AllBelow(r.direct, |c|)
    requires Grew(c1, u1, c, u, {d.indirect, d.doubly})
    requires BytesToSectors(r.length) <= GROWTH_LIMIT
    requires KeptBlocks(c1, c, d, r, 0) && GainedBlocks(u1, c, u, r, 0, BytesToSectors(r.length), run)
    requires BytesToSectors(r.length) <= SINGLE_LIMIT ==> c[d.doubly] == c1[d.doubly]
    ensures Extended(c1[f := InodeBlock(d)], u1, c[f := InodeBlock(d)], u, WithFile(owner, f, d.indirect, d.doubly),
      files[f := FileView(d.directory, 0, d.indirect, d.doubly, [])], f, d, r, run)
  {
    hide Consistent, Describes, InodeBlock, WithFile, KeptBlocks, GainedBlocks, PtrOf;
    var c1', c' := c1[f := InodeBlock(d)], c[f := InodeBlock(d)];
    EmptyFile(c1, u1, owner, files, f, d);
    CreateKeeps(c1, c1', c, c', d, r);
    CreateGains(u1, c, c', u, f, r, run);
  }

  lemma CreateKeeps(c1: seq<Block>, c1': seq<Block>, c: seq<Block>, c': seq<Block>, d: DiskInode, r: DiskInode)
    requires |c1| == |c1'| == |c| == |c'| && r.indirect == d.indirect < |c| && r.doubly == d.doubly < |c|
    requires c1[d.indirect] == ZEROS && c1[d.doubly] == ZEROS
    requires c'[d.indirect] == c[d.indirect] && c'[d.doubly] == c[d.doubly]
    requires KeptBlocks(c1, c, d, r, 0)
    ensures KeptBlocks(c1', c', d, r, 0)
  {
    ZerosAreZeroWords();
    assert forall i :: 0 <= i < INDIRECT_BLOCK_PTRS ==> IndexWord(c1, d.indirect, i) == 0;
    assert PointersInRange(c1, d.indirect, d.doubly);
    assert forall i :: 0 <= i < INDIRECT_BLOCK_PTRS ==> IndexWord(c', r.indirect, i) == IndexWord(c, r.indirect, i);
  }

  lemma CreateGains(u1: seq<bool>, c: seq<Block>, c': seq<Block>, u: seq<bool>, f: nat, r: DiskInode, run: seq<nat>)
    requires |c'| == |c| == |u1| && f < |c| && u1[f] && f != r.indirect && f != r.doubly
    requires forall s :: 0 <= s < |c| && s != f ==> c'[s] == c[s]
    requires r.indirect < |c| && r.doubly < |c|
    requires BytesToSectors(r.length) <= GROWTH_LIMIT
    requires GainedBlocks(u1, c, u, r, 0, BytesToSectors(r.length), run)
    ensures GainedBlocks(u1, c', u, r, 0, BytesToSectors(r.length), run)
  {
    if BytesToSectors(r.length) > SINGLE_LIMIT {
      SameWords(c, c', IndexWord(c, r.doubly, 0));
    }
    forall k | 0 <= k < |run|
      ensures Taken(u1, c', u, run[k])
    {
      assert Taken(u1, c, u, run[k]);
    }
    forall k | 0 <= k < BytesToSectors(r.length)
      ensures PtrOf(c', r, k) == run[k]
    {
      assert PtrOf(c', r, k) == PtrOf(c, r, k) by {
        assert k >= SINGLE_LIMIT && k < GROWTH_LIMIT ==> (k - SINGLE_LIMIT) / INDIRECT_BLOCK_PTRS == 0;
      }
    }
  }

  /** What follows when both index blocks and all data sectors of a new file were found. */
  lemma CreateDone(c0: seq<Block>, u0: seq<bool>, c1: seq<Block>, u1: seq<bool>, c: seq<Block>, u: seq<bool>,
                   owner: map<nat, Owner>, files: map<nat, FileView>, f: nat, d: DiskInode, r: DiskInode, run: seq<nat>)
    requires Consistent(c0, u0, owner, files) && Grew(c0, u0, c1, u1, {})
    requires NewFile(c1, u1, owner, files, f, d)
    requires |r.direct| == DIRECT_PTRS && r == d.(direct := r.direct, length := r.length) && AllBelow(r.direct, |c|)
    requires Grew(c1, u1, c, u, {d.indirect, d.doubly})
    requires BytesToSectors(r.length) <= GROWTH_LIMIT
    requires KeptBlocks(c1, c, d, r, 0) && GainedBlocks(u1, c, u, r, 0, BytesToSectors(r.length), run)
    requires BytesToSectors(r.length) <= SINGLE_LIMIT ==> c[d.doubly] == c1[d.doubly]
    ensures
      var c2, v := c[f := InodeBlock(r)], FileView(d.directory, r.length, d.indirect, d.doubly, run);
      var o := GrownOwner(WithFile(owner, f, d.indirect, d.doubly), f, 0, run, IndexWord(c, r.doubly, 0));
      && Consistent(c2, u, o, files[f := v])
      && FileBytes(c2, v) == Zeros(r.length)
      && (forall g :: Keeps(c0, c2, files, g))
  {
    hide Consistent, InodeBlock, WithFile, KeptBlocks, GainedBlocks, Extended, FileBytes, Describes, GrownOwner;
    var o1, v0 := WithFile(owner, f, d.indirect, d.doubly), FileView(d.directory, 0, d.indirect, d.doubly, []);
    var c1', c', c2 := c1[f := InodeBlock(d)], c[f := InodeBlock(d)], c[f := InodeBlock(r)];
    CreateStart(c0, u0, c1, u1, owner, files);
    EmptyFile(c1, u1, owner, files, f, d);
    CreateGrows(c1, u1, c, u, owner, files, f, d, r, run);
    var files1 := files[f := v0];
    GrowthDone(c1', u1, c', u, o1, files1, f, d, r, run);
    assert c'[f := InodeBlock(r)] == c2;
    assert IndexWord(c', r.doubly, 0) == IndexWord(c, r.doubly, 0);
    assert v0.blocks + run == run;
    assert files1[f := GrownView(v0, r.length, run)] ==
      files[f := FileView(d.directory, r.length, d.indirect, d.doubly, run)];
    assert Grown(FileBytes(c1', v0), r.length) == Zeros(r.length);
    forall g
      ensures Keeps(c0, c2, files, g)
    {
      if g in files {
        assert g != f && Keeps(c0, c1, files, g) && Keeps(c1, c1', files, g) && Keeps(c1', c2, files1, g);
        KeepsTrans(c0, c1, c1', files, g);
        KeepsTrans(c0, c1', c2, files, g);
      }
    }
  }

  lemma CreateStart(c0: seq<Block>, u0: seq<bool>, c1: seq<Block>, u1: seq<bool>, owner: map<nat, Owner>,
                    files: map<nat, FileView>)
    requires Consistent(c0, u0, owner, files) && Grew(c0, u0, c1, u1, {})
    ensures Consistent(c1, u1, owner, files)
    ensures forall g :: Keeps(c0, c1, files, g)
  {
    MapInodeKept(c0, u0, c1, u1);
    UnownedChanges(c0, u0, c1, u1, owner, files);
  }

  lemma KeepsTrans(c0: seq<Block>, c1: seq<Block>, c2: seq<Block>, files: map<nat, FileView>, g: nat)
    requires Keeps(c0, c1, files, g) && Keeps(c1, c2, files, g)
    ensures Keeps(c0, c2, files, g)
  {
    hide Describes, FileBytes;
  }

  /** What follows when something was missing: no file has noticed. */
  lemma CreateFailed(c0: seq<Block>, u0: seq<bool>, c1: seq<Block>, u1: seq<bool>, c: seq<Block>, u: seq<bool>,
                     owner: map<nat, Owner>, files: map<nat, FileView>, f: nat, d: DiskInode, r: DiskInode)
    requires Consistent(c0, u0, owner, files) && Grew(c0, u0, c1, u1, {})
    requires 0 < f < |c0| && f !in owner && |r.direct| == DIRECT_PTRS
    requires d.indirect < |u0| && (d.indirect == 0 || !u0[d.indirect])
    requires d.doubly < |u0| && (d.doubly == 0 || !u0[d.doubly])
    requires Grew(c1, u1, c, u, {d.indirect, d.doubly})
    requires IndexKept(c1, c, d.indirect) && IndexKept(c1, c, d.doubly)
    ensures Consistent(c[f := InodeBlock(r)], u, owner, files)
    ensures var c2 := c[f := InodeBlock(r)]; forall g :: Keeps(c0, c2, files, g)
  {
    UnownedChanges(c0, u0, c[f := InodeBlock(r)], u, owner, files);
  }

  lemma OpenWithFile(c0: seq<Block>, c: seq<Block>, files: map<nat, FileView>, open: map<nat, OpenInode>, f: nat,
                     v: FileView)
    requires OpenOk(c0, files, open) && f !in files
    requires forall g :: Keeps(c0, c, files, g)
    ensures OpenOk(c, files[f := v], open)
  {
    hide Describes, FileBytes;
    forall g | g in open
      ensures Describes(c, open[g].data, files[g])
    {
      assert Keeps(c0, c, files, g) && StillDescribed(c0, c, files, g);
    }
  }

  /** A sector taken just now is nobody's, so it can become an inode. */
  lemma FreshInode(c: seq<Block>, u: seq<bool>, owner: map<nat, Owner>, files: map<nat, FileView>, f: nat)
    requires Consistent(c, u, owner, files) && 0 < f < |u| && !u[f]
    ensures f !in owner && f !in files
    ensures Consistent(c, u[f := true], owner, files)
  {
    hide Describes, ZeroTail, PointersInRange, SecondLevelOk, IndexWord;
    assert f in files ==> FileOk(c, owner, f, files[f]) && Owns(owner, f, InodeOf(f));
  }

  /** Giving back a sector that is nobody's disturbs no file. */
  lemma ReleaseKeeps(c: seq<Block>, u: seq<bool>, owner: map<nat, Owner>, files: map<nat, FileView>, f: nat)
    requires Consistent(c, u, owner, files) && 0 < f < |u| && f !in owner
    ensures Consistent(c, u[f := false], owner, files)
  {
    hide FileOk, IndexWord;
  }

  /** Sectors taken just now are nobody's, so they can become a file's index blocks. */
  lemma FreshIndexBlocks(c0: seq<Block>, u0: seq<bool>, c1: seq<Block>, u1: seq<bool>, owner: map<nat, Owner>,
                         files: map<nat, FileView>, f: nat, d: DiskInode)
    requires Consistent(c0, u0, owner, files) && Grew(c0, u0, c1, u1, {}) && |c1| <= NO_SECTOR
    requires 0 < f < |c0| && u0[f] && f !in owner && f !in files
    requires TakenRun(u0, c1, u1, [d.indirect, d.doubly])
    requires Storable(d) && d.length == 0 && AllBelow(d.direct, |c1|)
    ensures NewFile(c1, u1, owner, files, f, d)
  {
    var run := [d.indirect, d.doubly];
    assert Taken(u0, c1, u1, run[0]) && Taken(u0, c1, u1, run[1]) && run[0] != run[1];
  }

  /** The inode on disk describes its file. */
  lemma OnDisk(contents: seq<Block>, used: seq<bool>, owner: map<nat, Owner>, files: map<nat, FileView>, f: nat)
    requires Consistent(contents, used, owner, files) && f in files
    ensures f < |contents| && Describes(contents, ParseInode(contents[f]), files[f])
  {
    assert FileOk(contents, owner, f, files[f]);
  }

  /** Whether a file is a directory is read from its inode, on disk and in memory. */
  lemma DirectoryOnDisk(contents: seq<Block>, used: seq<bool>, owner: map<nat, Owner>, files: map<nat, FileView>,
                        f: nat)
    requires Consistent(contents, used, owner, files) && f in files
    ensures f < |contents| && ParseInode(contents[f]).directory == files[f].directory
  {
    hide ParseInode;
    OnDisk(contents, used, owner, files, f);
  }

  lemma OpenAgain(contents: seq<Block>, files: map<nat, FileView>, open: map<nat, OpenInode>, f: nat, e: OpenInode)
    requires OpenOk(contents, files, open) && f in files
    requires Describes(contents, e.data, files[f]) || (f in open && e.data == open[f].data)
    ensures OpenOk(contents, files, open[f := e])
  {
    hide Describes;
  }
}
