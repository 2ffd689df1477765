/**
 How a file lies on disk: an inode sector with 122 direct pointers, a singly and a
 doubly indirect index block, and one data sector for every 512 bytes.  Everything
 here is stated over `contents`, the sectors as the buffer cache presents them.
 */
module InodeLayout {

  import opened Blocks
  import opened Words

  const DIRECT_PTRS: nat := 122
  const INDIRECT_BLOCK_PTRS: nat := 128
  // blocks reachable without the doubly indirect block
  const SINGLE_LIMIT: nat := 250
  // blocks reachable with one second-level index block
  const GROWTH_LIMIT: nat := 377
  const DOUBLE_LIMIT: nat := 250 + 128 * 128
  const MAX_INODE_SIZE: nat := (122 + 128 + 128 * 122) * 512
  const INODE_MAGIC: nat := 0x494e_4f44
  // the sector number -1
  const NO_SECTOR: nat := 0xFFFF_FFFF

  datatype DiskInode = DiskInode(
    direct: seq<nat>, indirect: nat, doubly: nat, directory: bool, parent: nat, length: nat, magic: nat)

  ghost predicate AllBelow(ptrs: seq<nat>, n: nat) {
    forall i :: 0 <= i < |ptrs| ==> ptrs[i] < n
  }

  ghost predicate Storable(d: DiskInode) {
    && |d.direct| == DIRECT_PTRS
    && AllBelow(d.direct, WORD_LIMIT)
    && d.indirect < WORD_LIMIT && d.doubly < WORD_LIMIT && d.parent < WORD_LIMIT
    && d.length < WORD_LIMIT && d.magic < WORD_LIMIT
  }

  /** An inode that has just been zeroed: no sectors, no length. */
  function NewInode(directory: bool): (d: DiskInode)
    ensures Storable(d) && AllBelow(d.direct, 1)
  {
    DiskInode(seq(DIRECT_PTRS, _ => 0), 0, 0, directory, 0, 0, INODE_MAGIC)
  }

  function InodeWords(d: DiskInode): (ws: seq<nat>)
    requires |d.direct| == DIRECT_PTRS
    ensures |ws| == WORDS_PER_BLOCK
  {
    d.direct + [d.indirect, d.doubly, if d.directory then 1 else 0, d.parent, d.length, d.magic]
  }

  function InodeBlock(d: DiskInode): Block
    requires |d.direct| == DIRECT_PTRS
  {
    Encode(InodeWords(d))
  }

  function InodeFromWords(ws: seq<nat>): (d: DiskInode)
    requires |ws| == WORDS_PER_BLOCK
    ensures |d.direct| == DIRECT_PTRS
  {
    DiskInode(ws[..122], ws[122], ws[123], ws[124] % 256 != 0, ws[125], ws[126], ws[127])
  }

  function ParseInode(b: Block): (d: DiskInode)
    ensures |d.direct| == DIRECT_PTRS
  {
    InodeFromWords(Decode(b))
  }

  lemma InodeFields(d: DiskInode)
    requires Storable(d)
    ensures AreWords(InodeWords(d))
    ensures InodeFromWords(InodeWords(d)) == d
  {
    var ws := InodeWords(d);
    assert ws[..122] == d.direct;
    var tail := [d.indirect, d.doubly, if d.directory then 1 else 0, d.parent, d.length, d.magic];
    forall i | 0 <= i < |ws|
      ensures ws[i] < WORD_LIMIT
    {
      assert ws[i] == if i < 122 then d.direct[i] else tail[i - 122];
    }
  }

  /** An inode written to its sector is read back unchanged. */
  lemma InodeRoundTrip(d: DiskInode)
    requires Storable(d)
    ensures ParseInode(InodeBlock(d)) == d
  {
    var ws := InodeWords(d);
    InodeFields(d);
    DecodeEncode(ws);
  }

  /**
   Where an inode's fields lie in its sector, in words of four bytes from the lowest on: 122
   direct pointers, the two indirect ones, the directory flag, the parent, length and magic.
   */
  lemma InodeOnDisk(d: DiskInode, i: nat)
    requires Storable(d) && i < 128
    ensures LittleEndian(InodeBlock(d), i) ==
      if i < 122 then d.direct[i]
      else [d.indirect, d.doubly, if d.directory then 1 else 0, d.parent, d.length, d.magic][i - 122]
    ensures NewInode(true).magic == NewInode(false).magic == 1229868868
  {
    InodeFields(d);
    WordAtEncode(InodeWords(d), i);
    hide Encode;
  }

  /** Four bytes as a number, lowest first. */
  function LittleEndian(b: Block, i: nat): nat
    requires i < 128
  {
    var b0: nat, b1: nat, b2: nat, b3: nat := b[4 * i], b[4 * i + 1], b[4 * i + 2], b[4 * i + 3];
    b0 + 256 * b1 + 65536 * b2 + 16777216 * b3
  }

  function BytesToSectors(size: nat): nat {
    (size + SECTOR_SIZE - 1) / SECTOR_SIZE
  }

  /** Word `i` of sector `s`; 0 where there is none. */
  function IndexWord(contents: seq<Block>, s: nat, i: nat): (w: nat)
    ensures w < WORD_LIMIT
  {
    if s < |contents| && i < INDIRECT_BLOCK_PTRS then WordAt(contents[s], i) else 0
  }

  /** An index block written is read back pointer by pointer. */
  lemma StoredIndex(contents: seq<Block>, s: nat, ptrs: seq<nat>)
    requires s < |contents| && AreWords(ptrs)
    ensures forall i :: 0 <= i < INDIRECT_BLOCK_PTRS ==> IndexWord(contents[s := Encode(ptrs)], s, i) == ptrs[i]
  {
    hide Encode, WordAt;
    forall i | 0 <= i < INDIRECT_BLOCK_PTRS
      ensures WordAt(Encode(ptrs), i) == ptrs[i]
    {
      WordAtEncode(ptrs, i);
    }
  }

  /** The first word of an inode written is its first direct pointer. */
  lemma FirstWord(contents: seq<Block>, f: nat, d: DiskInode)
    requires f < |contents| && Storable(d) && AllBelow(d.direct, |contents|)
    ensures IndexWord(contents[f := InodeBlock(d)], f, 0) < |contents|
  {
    InodeFields(d);
    StoredIndex(contents, f, InodeWords(d));
    assert InodeWords(d)[0] == d.direct[0];
  }

  /** The sector of block `k` of a file, through the index blocks. */
  function PtrOf(contents: seq<Block>, d: DiskInode, k: nat): nat {
    if k < DIRECT_PTRS then
      if k < |d.direct| then d.direct[k] else 0
    else if k < SINGLE_LIMIT then
      IndexWord(contents, d.indirect, k - DIRECT_PTRS)
    else
      var second := IndexWord(contents, d.doubly, (k - SINGLE_LIMIT) / INDIRECT_BLOCK_PTRS);
      IndexWord(contents, second, (k - SINGLE_LIMIT) % INDIRECT_BLOCK_PTRS)
  }

  /** The sector holding byte `pos`; a position equal to the length is let through. */
  function Locate(contents: seq<Block>, d: DiskInode, pos: int): nat {
    if pos > d.length || pos < 0 then NO_SECTOR
    else if pos / SECTOR_SIZE < DOUBLE_LIMIT then PtrOf(contents, d, pos / SECTOR_SIZE)
    else NO_SECTOR
  }

  // ---------- Files and who owns which sector ----------

  /** What a file is: a directory or not, its length, its two index blocks and its data sectors in order. */
  datatype FileView = FileView(directory: bool, length: nat, indirect: nat, doubly: nat, blocks: seq<nat>)

  /** The one use a sector is put to. */
  datatype Owner =
    | InodeOf(file: nat)
    | IndirectOf(file: nat)
    | DoublyOf(file: nat)
    | SecondLevelOf(file: nat)
    | DataOf(file: nat, block: nat)

  ghost predicate Owns(owner: map<nat, Owner>, s: nat, o: Owner) {
    s in owner && owner[s] == o
  }

  function ByteAt(contents: seq<Block>, v: FileView, p: nat): byte {
    var k := p / SECTOR_SIZE;
    if k < |v.blocks| && v.blocks[k] < |contents| then contents[v.blocks[k]][p % SECTOR_SIZE] else 0
  }

  /** The file as its users see it: a sequence of bytes. */
  function FileBytes(contents: seq<Block>, v: FileView): (r: seq<byte>)
    ensures |r| == v.length
  {
    seq(v.length, p requires 0 <= p < v.length => ByteAt(contents, v, p))
  }

  /** An inode, in memory or parsed from disk, describes the file `v`. */
  ghost predicate Describes(contents: seq<Block>, d: DiskInode, v: FileView) {
    && Storable(d)
    && d.directory == v.directory && d.length == v.length && d.indirect == v.indirect && d.doubly == v.doubly
    && |v.blocks| <= GROWTH_LIMIT
    && AllBelow(d.direct, |contents|)
    && (forall k :: 0 <= k < |v.blocks| ==> PtrOf(contents, d, k) == v.blocks[k])
  }

  ghost predicate OwnsItsSectors(contents: seq<Block>, owner: map<nat, Owner>, f: nat, v: FileView) {
    && Owns(owner, f, InodeOf(f))
    && Owns(owner, v.indirect, IndirectOf(f))
    && Owns(owner, v.doubly, DoublyOf(f))
    && (|v.blocks| > SINGLE_LIMIT ==> Owns(owner, IndexWord(contents, v.doubly, 0), SecondLevelOf(f)))
    && (forall k :: 0 <= k < |v.blocks| ==> Owns(owner, v.blocks[k], DataOf(f, k)))
  }

  /** Every word of sector `s` could be a sector number. */
  ghost predicate WordsInRange(contents: seq<Block>, s: nat) {
    forall i :: 0 <= i < INDIRECT_BLOCK_PTRS ==> IndexWord(contents, s, i) < |contents|
  }

  lemma SameWords(contents: seq<Block>, contents': seq<Block>, s: nat)
    requires |contents| == |contents'| && s < |contents| && contents'[s] == contents[s]
    ensures WordsInRange(contents', s) <==> WordsInRange(contents, s)
    ensures forall i :: 0 <= i < INDIRECT_BLOCK_PTRS ==> IndexWord(contents', s, i) == IndexWord(contents, s, i)
  {
    assert forall i :: 0 <= i < INDIRECT_BLOCK_PTRS ==> IndexWord(contents', s, i) == IndexWord(contents, s, i);
  }

  ghost predicate PointersInRange(contents: seq<Block>, indirect: nat, doubly: nat) {
    && WordsInRange(contents, indirect)
    && IndexWord(contents, doubly, 0) < |contents|
  }

  /** A file that needs no second-level block names none; one that has it finds only sector numbers there. */
  ghost predicate SecondLevelOk(contents: seq<Block>, v: FileView) {
    var second := IndexWord(contents, v.doubly, 0);
    if |v.blocks| <= SINGLE_LIMIT then second == 0 else WordsInRange(contents, second)
  }

  /** Bytes past the end of file in allocated sectors are zero. */
  ghost predicate ZeroTail(contents: seq<Block>, v: FileView) {
    forall p :: v.length <= p < SECTOR_SIZE * |v.blocks| ==> ByteAt(contents, v, p) == 0
  }

  ghost predicate FileOk(contents: seq<Block>, owner: map<nat, Owner>, f: nat, v: FileView) {
    && f < |contents|
    && |v.blocks| == BytesToSectors(v.length) <= GROWTH_LIMIT
    && OwnsItsSectors(contents, owner, f, v)
    && Describes(contents, ParseInode(contents[f]), v)
    && PointersInRange(contents, v.indirect, v.doubly)
    && SecondLevelOk(contents, v)
    && ZeroTail(contents, v)
  }

  /** Sector 0, the free map's inode, is in use, and its first pointer is a sector number. */
  ghost predicate MapInodeOk(contents: seq<Block>, used: seq<bool>) {
    0 < |used| && used[0] && IndexWord(contents, 0, 0) < |contents|
  }

  /** Owned sectors exist, are marked used, and sector 0 (the free map's inode) is nobody's. */
  ghost predicate OwnersAllocated(owner: map<nat, Owner>, used: seq<bool>) {
    forall s :: s in owner ==> 0 < s < |used| && used[s]
  }

  /**
   Ownership makes files independent: whatever leaves a file's own sectors alone
   leaves the file alone.
   */
  lemma FileFrame(contents: seq<Block>, contents': seq<Block>, owner: map<nat, Owner>, owner': map<nat, Owner>, f: nat,
                  v: FileView)
    requires FileOk(contents, owner, f, v)
    requires |contents'| == |contents|
    requires forall s :: s in owner && owner[s].file == f ==>
      s < |contents| && Owns(owner', s, owner[s]) && contents'[s] == contents[s]
    ensures FileOk(contents', owner', f, v)
    ensures FileBytes(contents', v) == FileBytes(contents, v)
  {
    assert contents'[f] == contents[f];
    assert contents'[v.indirect] == contents[v.indirect];
    assert contents'[v.doubly] == contents[v.doubly];
    forall k | 0 <= k < |v.blocks|
      ensures Owns(owner', v.blocks[k], DataOf(f, k)) && contents'[v.blocks[k]] == contents[v.blocks[k]]
    {
      assert Owns(owner, v.blocks[k], DataOf(f, k));
    }
    DescribesFrame(contents, contents', ParseInode(contents[f]), v);
    SameWords(contents, contents', v.indirect);
    if |v.blocks| > SINGLE_LIMIT {
      SameWords(contents, contents', IndexWord(contents, v.doubly, 0));
    }
    assert forall p :: 0 <= p < SECTOR_SIZE * |v.blocks| ==> ByteAt(contents', v, p) == ByteAt(contents, v, p);
  }

  lemma DescribesFrame(contents: seq<Block>, contents': seq<Block>, d: DiskInode, v: FileView)
    requires Describes(contents, d, v) && |contents'| == |contents|
    requires v.indirect < |contents| && contents'[v.indirect] == contents[v.indirect]
    requires v.doubly < |contents| && contents'[v.doubly] == contents[v.doubly]
    requires |v.blocks| > SINGLE_LIMIT ==>
      var second := IndexWord(contents, v.doubly, 0);
      second < |contents| && contents'[second] == contents[second]
    ensures Describes(contents', d, v)
  {
    forall k | 0 <= k < |v.blocks|
      ensures PtrOf(contents', d, k) == v.blocks[k]
    {
      assert k >= SINGLE_LIMIT ==> (k - SINGLE_LIMIT) / INDIRECT_BLOCK_PTRS == 0;
    }
  }
}
