/**
 What users of files may rely on: sectors are never shared, and what was written is
 read back.
 */
module FileLaws {

  import opened Blocks
  import opened InodeLayout
  import opened InodeGrowth
  import opened FileTheory
  import opened FileSystems

  /** File `f` uses sector `s` in the role `o`. */
  ghost predicate Uses(contents: seq<Block>, f: nat, v: FileView, s: nat, o: Owner) {
    match o
    case InodeOf(_) => o.file == f && s == f
    case IndirectOf(_) => o.file == f && s == v.indirect
    case DoublyOf(_) => o.file == f && s == v.doubly
    case SecondLevelOf(_) => o.file == f && |v.blocks| > SINGLE_LIMIT && s == IndexWord(contents, v.doubly, 0)
    case DataOf(_, k) => o.file == f && k < |v.blocks| && s == v.blocks[k]
  }

  /** A sector has one use: no two files share it, no file uses it twice, and the free map says it is used. */
  lemma OwnershipIsExclusive(contents: seq<Block>, used: seq<bool>, owner: map<nat, Owner>, files: map<nat, FileView>,
                             f: nat, g: nat, s: nat, o: Owner, p: Owner)
    requires Consistent(contents, used, owner, files) && f in files && g in files
    requires Uses(contents, f, files[f], s, o) && Uses(contents, g, files[g], s, p)
    ensures f == g && o == p && s < |used| && used[s]
  {
    UsedIsOwned(contents, used, owner, files, f, s, o);
    UsedIsOwned(contents, used, owner, files, g, s, p);
    assert o.file == f && p.file == g;
  }

  lemma UsedIsOwned(contents: seq<Block>, used: seq<bool>, owner: map<nat, Owner>, files: map<nat, FileView>, f: nat,
                    s: nat, o: Owner)
    requires Consistent(contents, used, owner, files) && f in files && Uses(contents, f, files[f], s, o)
    ensures Owns(owner, s, o) && s < |used| && used[s]
  {
    assert FileOk(contents, owner, f, files[f]);
    hide Describes, ZeroTail, PointersInRange;
    assert Owns(owner, s, o);
  }

  /** After a write: what was written, then what was there before, then zeros. */
  lemma WrittenIsThere(bytes0: seq<byte>, bytes: seq<byte>, length: nat, offset: nat, buffer: seq<byte>, n: nat)
    requires WriteOutcome(bytes0, bytes, length, offset, buffer, n)
    ensures |bytes| == length && (n > 0 ==> offset + n <= length && bytes[offset..offset + n] == buffer[..n])
    ensures forall p :: 0 <= p < length && !(offset <= p < offset + n) ==>
      bytes[p] == if p < |bytes0| then bytes0[p] else 0
  {
  }

  /** What a write says it wrote, a read at the same place returns. */
  method WriteThenRead(fs: FileSystem, f: nat, buffer: seq<byte>, offset: nat) returns (n: nat, data: seq<byte>)
    requires fs.Valid() && f in fs.open && f in fs.files
    requires fs.Writable(f) && fs.files[f].length + 1 < offset + |buffer| <= MAX_INODE_SIZE ==>
      GrowthSupported(BytesToSectors(fs.files[f].length), BytesToSectors(offset + |buffer|))
    modifies fs, fs.disk`contents, fs.disk`used, fs.disk`tries, fs.disk.parts
    ensures fs.Valid() && n <= |buffer| && data == buffer[..n]
    ensures data == buffer <==>
      || |buffer| == 0
      || old(&& fs.Writable(f)
             && (|| offset + |buffer| <= fs.files[f].length
                 || (fs.PastEnd(f, offset + |buffer|) && fs.disk.CanExtend(fs.files[f].length, offset + |buffer|))))
  {
    hide FileSystem.Valid, FileBytes, WriteOutcome;
    var grown;
    ghost var before := fs.Bytes(f);
    n, grown := fs.WriteAt(f, buffer, offset, true);
    WrittenIsThere(before, fs.Bytes(f), fs.files[f].length, offset, buffer, n);
    OutcomeBounds(before, fs.Bytes(f), fs.files[f].length, offset, buffer, n);
    data := fs.ReadAt(f, n, offset, true);
  }

  /**
   A write that should grow the file by one byte does not: the one byte is not written,
   whatever room there is, and the file stays as it was.
   */
  method OneByteAtTheEnd(fs: FileSystem, f: nat, offset: nat, b: byte) returns (n: nat)
    requires fs.Valid() && f in fs.open && f in fs.files && offset == fs.files[f].length
    modifies fs, fs.disk`contents, fs.disk`used, fs.disk`tries, fs.disk.parts
    ensures fs.Valid() && n == 0
    ensures f in fs.files && fs.Bytes(f) == old(fs.Bytes(f))
  {
    hide FileSystem.Valid, FileBytes, WriteOutcome;
    var grown;
    ghost var before := fs.Bytes(f);
    n, grown := fs.WriteAt(f, [b], offset, true);
    WrittenIsThere(before, fs.Bytes(f), offset, offset, [b], n);
    OutcomeBounds(before, fs.Bytes(f), offset, offset, [b], n);
  }

  lemma OutcomeBounds(bytes0: seq<byte>, bytes: seq<byte>, length: nat, offset: nat, buffer: seq<byte>, n: nat)
    requires WriteOutcome(bytes0, bytes, length, offset, buffer, n)
    ensures n <= |buffer|
  {
  }
}
