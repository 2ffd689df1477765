/**
 The plain store of files in numbers: what each operation answers, with the limits of the
 file system written out, and which bytes a file has afterwards.
 */
module FileNumbers {

  import Bitmaps
  import opened Blocks
  import opened InodeLayout
  import opened InodeGrowth
  import opened SectorTaking
  import opened FileTheory
  import opened FileRuns

  /** `n` sectors are free, and the free map's file can be written each time one of them is taken. */
  ghost predicate Has(b: Supply, n: nat) {
    n <= b.free && (b.logged ==> forall k :: b.tries <= k < b.tries + n ==> b.mapOk(k))
  }

  function Sectors(length: nat): nat {
    (length + 511) / 512
  }

  /** Growth that the index arithmetic gets right. */
  predicate Right(from: nat, to: nat) {
    || to <= 250
    || to <= from
    || (from <= 250 && to <= 377)
    || (from > 250 && (from - 250) % 128 == 0 && to - from < 128 && to <= 16634)
  }

  /** Growth is supported exactly where the doubly indirect block is not needed or is filled correctly. */
  lemma SupportedIff(from: nat, to: nat)
    ensures GrowthSupported(from, to) <==> Right(from, to)
    ensures GrowthSupported(from, to) <==>
      to <= 250 || to <= from || GrowsCorrectly(if from < 250 then 250 else from, to)
  {
    if to > 250 && to > from {
      GrowthIsExact(if from < 250 then 250 else from, to);
    }
  }

  lemma NeededIs(from: nat, to: nat)
    requires Sectors(from) <= Sectors(to) && to <= 8123392
    ensures Cost(from, to) ==
      Sectors(to) - Sectors(from) + if Sectors(from) <= 250 < Sectors(to) then 1 else 0
  {
  }

  /**
   Formatting a device of `n` sectors takes 4 of them, one for every 512 bytes of the map's
   file with a bit for every sector in words of 4 bytes, and one more past 250 of those.
   */
  lemma FormatIs(n: nat)
    ensures
      var size := (n + 31) / 32 * 4;
      && Bitmaps.ByteCnt(n) == size
      && (size <= 8123392 ==> 4 + Cost(0, size) == 4 + Sectors(size) + if Sectors(size) > 250 then 1 else 0)
      && (CanMake(size) <==> size > 8123392 || Sectors(size) <= 377)
  {
    var size := (n + 31) / 32 * 4;
    SupportedIff(0, Sectors(size));
    assert BytesToSectors(size) == Sectors(size);
    if size <= 8123392 {
      NeededIs(0, size);
    }
    hide GrowthSupported, Cost, BytesToSectors, Sectors;
  }

  lemma TooLong(from: nat, to: nat)
    requires to > 8123392
    ensures Cost(from, to) == 0
  {
  }

  /**
   Making a file of `length` bytes takes a sector for the inode, two index blocks, one for
   every 512 bytes, and one more past 250 of them; 8123392 bytes is the most.
   */
  lemma MakeIs(p: Plain, length: nat, directory: bool)
    ensures
      var (p', answer) := Step(p, Make(length, directory));
      var cost := 3 + Sectors(length) + if Sectors(length) > 250 then 1 else 0;
      && (length > 8123392 ==> answer == NoRoom && p'.files == p.files)
      && (length <= 8123392 && Sectors(length) > 377 ==> answer == Unsupported && p' == p)
      && (length <= 8123392 && Sectors(length) <= 377 && !Has(p.stock, cost) ==>
            answer == NoRoom && p'.files == p.files)
      && (length <= 8123392 && Sectors(length) <= 377 && Has(p.stock, cost) ==>
            && answer == Done && p'.files == p.files + [PlainFile(directory, seq(length, _ => 0), 0, 0)]
            && p'.stock == p.stock.(free := p.stock.free - cost, tries := p.stock.tries + cost))
  {
    SupportedIff(0, Sectors(length));
    assert BytesToSectors(length) == Sectors(length);
    if length <= 8123392 {
      NeededIs(0, length);
    }
    var cost := 3 + Cost(0, length);
    assert Enough(p.stock, cost) <==> Has(p.stock, cost);
    assert Zeros(length) == seq(length, _ => 0);
    hide GrowthSupported, Needed, Cost, Enough, Has, Spend, BytesToSectors, Sectors, Right, Zeros;
    if length <= MAX_INODE_SIZE && Enough(p.stock, cost) {
      MadeStock(p.stock, length);
    }
  }

  lemma MadeStock(b: Supply, length: nat)
    requires Makeable(b, length)
    ensures
      var cost := 3 + Cost(0, length);
      AfterMake(b, length) == b.(free := b.free - cost, tries := b.tries + cost)
  {
    hide Spend, Enough, Cost;
    var c := Cost(0, length);
    TakeInTwo(b, 1, 2 + c);
    TakeInTwo(Spend(b, 1), 2, c);
    SpendAll(b, 3 + c);
  }

  /** Operations on a file change that file, and nothing of any other. */
  lemma StepIs(p: Plain, op: FileOp)
    requires !op.Make? && op.file < |p.files|
    ensures
      var (p', answer) := Step(p, op);
      var (x, stock, a) := OnFile(p.files[op.file], p.stock, op);
      p' == Plain(p.files[op.file := x], stock) && answer == a
  {
    hide OnFile;
  }

  /** How many of `n` bytes at `offset` are copied: all, or without a bounce buffer the whole sectors. */
  function Whole(offset: nat, n: nat, bounceOk: bool): nat {
    if bounceOk then n else if offset % 512 == 0 then n / 512 * 512 else 0
  }

  lemma WholeFits(offset: nat, n: nat, bounceOk: bool)
    ensures Whole(offset, n, bounceOk) <= n
  {
  }

  lemma NoneWhole(offset: nat, bounceOk: bool)
    ensures Whole(offset, 0, bounceOk) == 0
  {
  }

  lemma NotFar(from: nat, to: nat)
    requires to <= from + 1
    ensures CanGrow(from, to)
  {
  }

  lemma CopiedIs(length: nat, size: nat, offset: nat, bounceOk: bool)
    ensures Copied(length, size, offset, bounceOk) ==
      if offset >= length then 0 else if offset + size <= length then Whole(offset, size, bounceOk)
      else Whole(offset, length - offset, bounceOk)
  {
  }

  /** A read of an open file returns the bytes from the offset on, up to the size or the end of file. */
  lemma ReadIs(x: PlainFile, stock: Supply, i: nat, offset: nat, size: nat, bounceOk: bool)
    ensures
      var (x', stock', answer) := OnFile(x, stock, Read(i, offset, size, bounceOk));
      var there := if offset >= |x.bytes| then 0 else if offset + size <= |x.bytes| then size else |x.bytes| - offset;
      var n := Whole(offset, there, bounceOk);
      && x' == x && stock' == stock
      && (x.openers == 0 ==> answer == Refused)
      && (x.openers > 0 && n == 0 ==> answer == Got([]))
      && (x.openers > 0 && n > 0 ==> offset + n <= |x.bytes| && answer == Got(x.bytes[offset..offset + n]))
  {
    CopiedIs(|x.bytes|, size, offset, bounceOk);
    assert Whole(offset, 0, bounceOk) == 0;
    hide Copied;
  }

  /** `data` in the place of what was there; `data` ends inside the file. */
  function Replaced(bytes: seq<byte>, offset: nat, data: seq<byte>): seq<byte> {
    if offset + |data| <= |bytes| then bytes[..offset] + data + bytes[offset + |data|..] else bytes
  }

  /** The file made `end` bytes long by zeros. */
  function Longer(bytes: seq<byte>, end: nat): seq<byte> {
    if end <= |bytes| then bytes else bytes + seq(end - |bytes|, _ => 0)
  }

  lemma WrittenIs(bytes: seq<byte>, length: nat, offset: nat, data: seq<byte>)
    requires |bytes| <= length && (data == [] || offset + |data| <= length)
    ensures Written(bytes, length, offset, data) == Replaced(Longer(bytes, length), offset, data)
  {
    assert Written(bytes, length, offset, data) == Replaced(Longer(bytes, length), offset, data);
  }

  /** Nobody writes to a file that is not open, or while writing is denied. */
  lemma WriteRefused(x: PlainFile, stock: Supply, i: nat, offset: nat, buffer: seq<byte>, bounceOk: bool)
    ensures
      var (x', stock', answer) := OnFile(x, stock, Write(i, offset, buffer, bounceOk));
      && (x.openers == 0 ==> x' == x && stock' == stock && answer == Refused)
      && (x.openers > 0 && x.deniers > 0 ==> x' == x && stock' == stock && answer == Wrote(0))
  {
    assert Written(x.bytes, |x.bytes|, offset, []) == x.bytes;
  }

  /** A write that ends inside the file replaces bytes there, and takes no sectors. */
  lemma WriteInside(x: PlainFile, stock: Supply, i: nat, offset: nat, buffer: seq<byte>, bounceOk: bool)
    requires x.openers > 0 && x.deniers == 0 && 0 < |buffer| && offset + |buffer| <= |x.bytes|
    ensures
      var (x', stock', answer) := OnFile(x, stock, Write(i, offset, buffer, bounceOk));
      var n := Whole(offset, |buffer|, bounceOk);
      && n <= |buffer| && answer == Wrote(n) && stock' == stock
      && x' == x.(bytes := Replaced(x.bytes, offset, buffer[..n]))
  {
    hide Copied, Written, Replaced, Whole, CanGrow, Extendable;
    CopiedIs(|x.bytes|, |buffer|, offset, bounceOk);
    WholeFits(offset, |buffer|, bounceOk);
    NotFar(|x.bytes|, offset + |buffer|);
    WrittenIs(x.bytes, |x.bytes|, offset, buffer[..Whole(offset, |buffer|, bounceOk)]);
  }

  /** A write of no bytes, not far past the end, does nothing. */
  lemma WriteNothing(x: PlainFile, stock: Supply, i: nat, offset: nat, bounceOk: bool)
    requires x.openers > 0 && x.deniers == 0 && offset <= |x.bytes| + 1
    ensures OnFile(x, stock, Write(i, offset, [], bounceOk)) == (x, stock, Wrote(0))
  {
    assert Written(x.bytes, |x.bytes|, offset, []) == x.bytes;
    hide Copied, Written;
  }

  /** A write that ends one byte past the end leaves that byte out, and takes no sectors. */
  lemma WriteOneOver(x: PlainFile, stock: Supply, i: nat, offset: nat, buffer: seq<byte>, bounceOk: bool)
    requires x.openers > 0 && x.deniers == 0 && 0 < |buffer| && offset + |buffer| == |x.bytes| + 1
    ensures
      var (x', stock', answer) := OnFile(x, stock, Write(i, offset, buffer, bounceOk));
      var n := Whole(offset, |buffer| - 1, bounceOk);
      && n < |buffer| && answer == Wrote(n) && stock' == stock
      && x' == x.(bytes := Replaced(x.bytes, offset, buffer[..n]))
  {
    hide Copied, Written, Replaced, Whole, CanGrow, Extendable;
    CopiedIs(|x.bytes|, |buffer|, offset, bounceOk);
    WholeFits(offset, |buffer| - 1, bounceOk);
    NoneWhole(offset, bounceOk);
    WrittenIs(x.bytes, |x.bytes|, offset, buffer[..Whole(offset, |buffer| - 1, bounceOk)]);
    NotFar(|x.bytes|, offset + |buffer|);
  }

  /**
   A write that ends further out makes the file longer, by zeros where nothing is written,
   exactly if the sectors it needs can be had; else it writes nothing.
   */
  lemma WriteBeyond(x: PlainFile, stock: Supply, i: nat, offset: nat, buffer: seq<byte>, bounceOk: bool)
    requires x.openers > 0 && x.deniers == 0 && offset + |buffer| > |x.bytes| + 1
    ensures
      var (x', stock', answer) := OnFile(x, stock, Write(i, offset, buffer, bounceOk));
      var n := Whole(offset, |buffer|, bounceOk);
      var end := offset + |buffer|;
      var from, to := Sectors(|x.bytes|), Sectors(end);
      var cost := to - from + if from <= 250 < to then 1 else 0;
      && (end <= 8123392 && !Right(from, to) ==> answer == Unsupported && x' == x && stock' == stock)
      && (end <= 8123392 && Right(from, to) && Has(stock, cost) ==>
            && n <= |buffer| && answer == Wrote(n)
            && x' == x.(bytes := Replaced(Longer(x.bytes, end), offset, buffer[..n]))
            && stock' == stock.(free := stock.free - cost, tries := stock.tries + cost))
      && (end <= 8123392 && Right(from, to) && !Has(stock, cost) ==> answer == Wrote(0) && x' == x)
      && (end > 8123392 && from < to ==> answer == Wrote(0) && x' == x && stock' == stock)
  {
    var end := offset + |buffer|;
    var from, to := Sectors(|x.bytes|), Sectors(end);
    assert BytesToSectors(|x.bytes|) == from <= to == BytesToSectors(end);
    SupportedIff(from, to);
    assert CanGrow(|x.bytes|, end) <==> end > 8123392 || Right(from, to);
    if end <= 8123392 {
      ExtendableIff(stock, |x.bytes|, end);
    } else if from < to {
      NotExtendable(stock, |x.bytes|, end);
    }
    hide CanGrow, Extendable, Sectors, BytesToSectors, Right, Has, Spend, Cost, Replaced, Longer, GrowthSupported,
         Whole;
    if CanGrow(|x.bytes|, end) {
      hide OnFile;
      if Extendable(stock, |x.bytes|, end) {
        WriteSucceeds(x, stock, i, offset, buffer, bounceOk);
      } else {
        WriteFails(x, stock, i, offset, buffer, bounceOk);
      }
    }
  }

  lemma Unwritten(x: PlainFile, offset: nat)
    ensures Written(x.bytes, |x.bytes|, offset, []) == x.bytes
  {
  }

  /** The write is allowed, and `Extendable` decides. */
  lemma WriteSucceeds(x: PlainFile, stock: Supply, i: nat, offset: nat, buffer: seq<byte>, bounceOk: bool)
    requires x.openers > 0 && x.deniers == 0 && |x.bytes| + 1 < offset + |buffer|
    requires CanGrow(|x.bytes|, offset + |buffer|) && Extendable(stock, |x.bytes|, offset + |buffer|)
    ensures
      var end := offset + |buffer|;
      var n := Whole(offset, |buffer|, bounceOk);
      && n <= |buffer|
      && OnFile(x, stock, Write(i, offset, buffer, bounceOk)) ==
         (x.(bytes := Replaced(Longer(x.bytes, end), offset, buffer[..n])), Spend(stock, Cost(|x.bytes|, end)),
           Wrote(n))
  {
    var end := offset + |buffer|;
    CopiedIs(end, |buffer|, offset, bounceOk);
    var n := Whole(offset, |buffer|, bounceOk);
    WrittenIs(x.bytes, end, offset, buffer[..n]);
    hide Extendable, CanGrow, Cost, Copied, Written, Spend, Replaced, Longer;
  }

  lemma WriteFails(x: PlainFile, stock: Supply, i: nat, offset: nat, buffer: seq<byte>, bounceOk: bool)
    requires x.openers > 0 && x.deniers == 0 && |x.bytes| + 1 < offset + |buffer|
    requires CanGrow(|x.bytes|, offset + |buffer|) && !Extendable(stock, |x.bytes|, offset + |buffer|)
    ensures OnFile(x, stock, Write(i, offset, buffer, bounceOk)) ==
      (x, Spend(stock, Cost(|x.bytes|, offset + |buffer|)), Wrote(0))
  {
    Unwritten(x, offset);
    assert buffer[..0] == [];
    hide Extendable, CanGrow, Cost, Copied, Written, Spend;
  }

  /** Sectors can be had for a longer file exactly if it is not too long, and they are there. */
  lemma ExtendableIff(b: Supply, from: nat, to: nat)
    requires from <= to <= 8123392
    ensures
      var cost := Sectors(to) - Sectors(from) + if Sectors(from) <= 250 < Sectors(to) then 1 else 0;
      && (Extendable(b, from, to) <==> Has(b, cost))
      && (Has(b, cost) ==>
            Spend(b, Cost(from, to)) == b.(free := b.free - cost, tries := b.tries + cost))
  {
    NeededIs(from, to);
    NothingTaken(b);
    var cost := Cost(from, to);
    assert Enough(b, cost) <==> Has(b, cost);
    assert BytesToSectors(from) == Sectors(from) <= Sectors(to) == BytesToSectors(to);
    assert Extendable(b, from, to) <==> Enough(b, cost);
    hide Extendable, Cost, Spend, Enough, Has, BytesToSectors, Sectors;
    if Enough(b, cost) {
      SpendAll(b, cost);
    }
  }

  /** Past 8123392 bytes no sector is taken, whatever there is. */
  lemma NotExtendable(b: Supply, from: nat, to: nat)
    requires to > 8123392 && Sectors(from) < Sectors(to)
    ensures !Extendable(b, from, to) && Spend(b, Cost(from, to)) == b
  {
    TooLong(from, to);
    NothingTaken(b);
  }

  /** Openers are counted; the last to close takes the denials along; each opener may deny writing once. */
  lemma OpenersAreCounted(x: PlainFile, stock: Supply, i: nat)
    ensures OnFile(x, stock, Open(i)) == (x.(openers := x.openers + 1), stock, Done)
    ensures x.openers == 0 ==>
      && OnFile(x, stock, Close(i)) == (x, stock, Refused) && OnFile(x, stock, Deny(i)) == (x, stock, Refused)
      && OnFile(x, stock, AskDir(i)) == (x, stock, Refused)
    ensures x.openers == 1 ==> OnFile(x, stock, Close(i)) == (x.(openers := 0, deniers := 0), stock, Done)
    ensures x.openers > 1 ==> OnFile(x, stock, Close(i)) == (x.(openers := x.openers - 1), stock, Done)
    ensures x.deniers < x.openers ==> OnFile(x, stock, Deny(i)) == (x.(deniers := x.deniers + 1), stock, Done)
    ensures 0 < x.deniers <= x.openers ==> OnFile(x, stock, Allow(i)) == (x.(deniers := x.deniers - 1), stock, Done)
    ensures x.deniers == 0 ==> OnFile(x, stock, Allow(i)) == (x, stock, Refused)
    ensures x.openers > 0 ==> OnFile(x, stock, AskDir(i)) == (x, stock, Answer.IsDir(x.directory))
  {
    hide AfterWrite, StockAfterWrite, WriteCount, CanGrow, Part;
  }
}
