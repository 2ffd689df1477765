/**
 Whole runs of file operations: the file system does what a plain store does that keeps
 every file as a sequence of bytes and counts the sectors that are left.
 */
module FileRuns {

  import opened Options
  import opened Sequences
  import opened Blocks
  import Bitmaps
  import opened InodeLayout
  import opened InodeGrowth
  import opened SectorTaking
  import opened FileTheory
  import opened FileSystems

  // ---------- The plain store ----------

  datatype PlainFile = PlainFile(directory: bool, bytes: seq<byte>, openers: nat, deniers: nat)

  /** Files in the order in which they were made, and what there is to make and grow them from. */
  datatype Plain = Plain(files: seq<PlainFile>, stock: Supply)

  /** Operations name files by that order; `bounceOk` says whether there is memory for a bounce buffer. */
  datatype FileOp =
    | Make(length: nat, directory: bool)
    | Open(file: nat)
    | Close(file: nat)
    | Deny(file: nat)
    | Allow(file: nat)
    | AskDir(file: nat)
    | Read(file: nat, offset: nat, size: nat, bounceOk: bool)
    | Write(file: nat, offset: nat, buffer: seq<byte>, bounceOk: bool)

  /**
   `Refused`: there is no such file, or an assertion forbids it.  `Unsupported`: it takes
   growth that the index arithmetic gets wrong.
   */
  datatype Answer =
    | Refused | Unsupported | Done | NoRoom | Got(data: seq<byte>) | Wrote(n: nat) | IsDir(directory: bool)

  predicate CanMake(length: nat) {
    length <= MAX_INODE_SIZE ==> GrowthSupported(0, BytesToSectors(length))
  }

  predicate CanGrow(from: nat, to: nat) {
    from + 1 < to <= MAX_INODE_SIZE ==> GrowthSupported(BytesToSectors(from), BytesToSectors(to))
  }

  /** A write that is to end at `end` tries to grow the file. */
  predicate TriesToGrow(x: PlainFile, end: nat) {
    x.deniers == 0 && (end == 0 || end > |x.bytes| + 1)
  }

  ghost predicate Grows(x: PlainFile, stock: Supply, end: nat) {
    TriesToGrow(x, end) && Extendable(stock, |x.bytes|, end)
  }

  ghost function LengthAfter(x: PlainFile, stock: Supply, end: nat): nat {
    if Grows(x, stock, end) then end else |x.bytes|
  }

  /** How many bytes a write writes. */
  ghost function WriteCount(x: PlainFile, stock: Supply, offset: nat, size: nat, bounceOk: bool): (n: nat)
    ensures n <= size
  {
    var end := offset + size;
    if x.deniers > 0 || (TriesToGrow(x, end) && !Grows(x, stock, end)) then 0
    else Copied(LengthAfter(x, stock, end), size, offset, bounceOk)
  }

  ghost function AfterWrite(x: PlainFile, stock: Supply, offset: nat, buffer: seq<byte>, bounceOk: bool): PlainFile {
    var n := WriteCount(x, stock, offset, |buffer|, bounceOk);
    x.(bytes := Written(x.bytes, LengthAfter(x, stock, offset + |buffer|), offset, buffer[..n]))
  }

  ghost function StockAfterWrite(x: PlainFile, stock: Supply, end: nat): Supply {
    if TriesToGrow(x, end) then Spend(stock, Cost(|x.bytes|, end)) else stock
  }

  /** What a read returns. */
  function Part(bytes: seq<byte>, offset: nat, size: nat, bounceOk: bool): seq<byte> {
    var n := Copied(|bytes|, size, offset, bounceOk);
    if n == 0 then [] else bytes[offset..offset + n]
  }

  /** An opener fewer; the last one takes the denials along. */
  function Closed(x: PlainFile): PlainFile
    requires x.openers > 0
  {
    if x.openers == 1 then x.(openers := 0, deniers := 0) else x.(openers := x.openers - 1)
  }

  /** One operation on a file that exists. */
  ghost function OnFile(x: PlainFile, stock: Supply, op: FileOp): (PlainFile, Supply, Answer) {
    match op
    case Make(_, _) => (x, stock, Refused)
    case Open(_) => (x.(openers := x.openers + 1), stock, Done)
    case Close(_) => if x.openers == 0 then (x, stock, Refused) else (Closed(x), stock, Done)
    case Deny(_) => if x.deniers >= x.openers then (x, stock, Refused) else (x.(deniers := x.deniers + 1), stock, Done)
    case Allow(_) =>
      if x.deniers == 0 || x.deniers > x.openers then (x, stock, Refused)
      else (x.(deniers := x.deniers - 1), stock, Done)
    case AskDir(_) => if x.openers == 0 then (x, stock, Refused) else (x, stock, Answer.IsDir(x.directory))
    case Read(_, offset, size, bounceOk) =>
      if x.openers == 0 then (x, stock, Refused) else (x, stock, Got(Part(x.bytes, offset, size, bounceOk)))
    case Write(_, offset, buffer, bounceOk) =>
      if x.openers == 0 then (x, stock, Refused)
      else if x.deniers == 0 && !CanGrow(|x.bytes|, offset + |buffer|) then (x, stock, Unsupported)
      else
        (AfterWrite(x, stock, offset, buffer, bounceOk),
         StockAfterWrite(x, stock, offset + |buffer|),
         Wrote(WriteCount(x, stock, offset, |buffer|, bounceOk)))
  }

  ghost function MakeFile(p: Plain, length: nat, directory: bool): (Plain, Answer) {
    if !CanMake(length) then (p, Unsupported)
    else if Makeable(p.stock, length) then
      (Plain(p.files + [PlainFile(directory, Zeros(length), 0, 0)], AfterMake(p.stock, length)), Done)
    else (p.(stock := AfterMake(p.stock, length)), NoRoom)
  }

  ghost function Step(p: Plain, op: FileOp): (Plain, Answer) {
    if op.Make? then MakeFile(p, op.length, op.directory)
    else if op.file >= |p.files| then (p, Refused)
    else
      var (x, stock, answer) := OnFile(p.files[op.file], p.stock, op);
      (Plain(p.files[op.file := x], stock), answer)
  }

  ghost function Final(p: Plain, ops: seq<FileOp>): Plain {
    if ops == [] then p else Step(Final(p, ops[..|ops| - 1]), ops[|ops| - 1]).0
  }

  ghost function Answers(p: Plain, ops: seq<FileOp>): (r: seq<Answer>)
    ensures |r| == |ops|
  {
    if ops == [] then []
    else
      var front := ops[..|ops| - 1];
      Answers(p, front) + [Step(Final(p, front), ops[|ops| - 1]).1]
  }

  lemma RunNext(p: Plain, ops: seq<FileOp>, op: FileOp)
    ensures Final(p, ops + [op]) == Step(Final(p, ops), op).0
    ensures Answers(p, ops + [op]) == Answers(p, ops) + [Step(Final(p, ops), op).1]
  {
    assert (ops + [op])[..|ops|] == ops;
  }

  // ---------- The file system does the same ----------

  /** File `f` as its users see it. */
  ghost function View(fs: FileSystem, f: nat): PlainFile
    reads fs, fs.disk
  {
    PlainFile(f in fs.files && fs.files[f].directory,
              fs.Bytes(f),
              if f in fs.open then fs.open[f].openCnt else 0,
              if f in fs.open then fs.open[f].denyWriteCnt else 0)
  }

  /** `names[i]` is the inode sector of file `i` of the plain store. */
  ghost predicate Matches(fs: FileSystem, names: seq<nat>, p: Plain)
    reads fs, fs.disk, fs.disk.parts
  {
    && fs.Valid() && fs.disk.logged && fs.disk.Stock() == p.stock
    && (forall f :: f in fs.open ==> fs.open[f].openCnt > 0)
    && NoDup(names) && |names| == |p.files|
    && (forall i :: 0 <= i < |names| ==> names[i] in fs.files && View(fs, names[i]) == p.files[i])
  }

  method DoMake(fs: FileSystem, names: seq<nat>, length: nat, directory: bool, ghost p: Plain)
    returns (names': seq<nat>, answer: Answer)
    requires Matches(fs, names, p)
    modifies fs, fs.disk`contents, fs.disk`used, fs.disk`tries, fs.disk.parts
    ensures Matches(fs, names', MakeFile(p, length, directory).0) && answer == MakeFile(p, length, directory).1
  {
    hide FileSystem.Valid, FileBytes, Makeable, AfterMake, Zeros, FreeSectors;
    if !CanMake(length) {
      return names, Unsupported;
    }
    OpenAreFiles(fs);
    var r := fs.Make(length, directory);
    if r.None? {
      return names, NoRoom;
    }
    names' := names + [r.value];
    answer := Done;
  }

  lemma OpenAreFiles(fs: FileSystem)
    requires fs.Valid()
    ensures forall f :: f in fs.open ==> f in fs.files && fs.open[f].data.length == fs.files[f].length
  {
  }

  method DoOpen(fs: FileSystem, names: seq<nat>, i: nat, ghost p: Plain) returns (answer: Answer)
    requires Matches(fs, names, p) && i < |names|
    modifies fs`open, fs.disk.parts
    ensures Matches(fs, names, Step(p, Open(i)).0) && answer == Step(p, Open(i)).1
  {
    hide FileSystem.Valid, FileBytes, FreeSectors;
    fs.Open(names[i]);
    answer := Done;
  }

  method DoClose(fs: FileSystem, names: seq<nat>, i: nat, ghost p: Plain) returns (answer: Answer)
    requires Matches(fs, names, p) && i < |names|
    modifies fs`open
    ensures Matches(fs, names, Step(p, Close(i)).0) && answer == Step(p, Close(i)).1
  {
    hide FileSystem.Valid, FileBytes, FreeSectors;
    if names[i] !in fs.open {
      return Refused;
    }
    fs.Close(names[i]);
    answer := Done;
  }

  method DoDeny(fs: FileSystem, names: seq<nat>, i: nat, ghost p: Plain) returns (answer: Answer)
    requires Matches(fs, names, p) && i < |names|
    modifies fs`open
    ensures Matches(fs, names, Step(p, Deny(i)).0) && answer == Step(p, Deny(i)).1
  {
    hide FileSystem.Valid, FileBytes, FreeSectors;
    var f := names[i];
    if f !in fs.open || fs.open[f].denyWriteCnt >= fs.open[f].openCnt {
      return Refused;
    }
    fs.DenyWrite(f);
    answer := Done;
  }

  method DoAllow(fs: FileSystem, names: seq<nat>, i: nat, ghost p: Plain) returns (answer: Answer)
    requires Matches(fs, names, p) && i < |names|
    modifies fs`open
    ensures Matches(fs, names, Step(p, Allow(i)).0) && answer == Step(p, Allow(i)).1
  {
    hide FileSystem.Valid, FileBytes, FreeSectors;
    var f := names[i];
    if f !in fs.open || fs.open[f].denyWriteCnt == 0 || fs.open[f].denyWriteCnt > fs.open[f].openCnt {
      return Refused;
    }
    fs.AllowWrite(f);
    answer := Done;
  }

  method DoAskDir(fs: FileSystem, names: seq<nat>, i: nat, ghost p: Plain) returns (answer: Answer)
    requires Matches(fs, names, p) && i < |names|
    ensures Matches(fs, names, Step(p, AskDir(i)).0) && answer == Step(p, AskDir(i)).1
  {
    hide FileSystem.Valid, FileBytes, FreeSectors;
    if names[i] !in fs.open {
      return Refused;
    }
    var directory := fs.IsDir(names[i]);
    answer := Answer.IsDir(directory);
  }

  method DoRead(fs: FileSystem, names: seq<nat>, i: nat, offset: nat, size: nat, bounceOk: bool, ghost p: Plain)
    returns (answer: Answer)
    requires Matches(fs, names, p) && i < |names|
    modifies fs.disk.parts
    ensures
      var op := Read(i, offset, size, bounceOk);
      Matches(fs, names, Step(p, op).0) && answer == Step(p, op).1
  {
    hide FileSystem.Valid, FileBytes, FreeSectors, Copied;
    if names[i] !in fs.open {
      return Refused;
    }
    var data := fs.ReadAt(names[i], size, offset, bounceOk);
    answer := Got(data);
  }

  method DoWrite(fs: FileSystem, names: seq<nat>, i: nat, offset: nat, buffer: seq<byte>, bounceOk: bool,
                 ghost p: Plain)
    returns (answer: Answer)
    requires Matches(fs, names, p) && i < |names|
    modifies fs, fs.disk`contents, fs.disk`used, fs.disk`tries, fs.disk.parts
    ensures
      var op := Write(i, offset, buffer, bounceOk);
      Matches(fs, names, Step(p, op).0) && answer == Step(p, op).1
  {
    hide FileSystem.Valid, FileBytes, FreeSectors, Copied, Written, Spend, Cost, Extendable;
    var f := names[i];
    if f !in fs.open {
      return Refused;
    }
    OpenAreFiles(fs);
    if fs.open[f].denyWriteCnt == 0 && !CanGrow(fs.open[f].data.length, offset + |buffer|) {
      return Unsupported;
    }
    var n, grown := fs.WriteAt(f, buffer, offset, bounceOk);
    answer := Wrote(n);
  }

  method Do(fs: FileSystem, names: seq<nat>, op: FileOp, ghost p: Plain) returns (names': seq<nat>, answer: Answer)
    requires Matches(fs, names, p)
    modifies fs, fs.disk`contents, fs.disk`used, fs.disk`tries, fs.disk.parts
    ensures Matches(fs, names', Step(p, op).0) && answer == Step(p, op).1
  {
    var count := |names|;
    assert count == |p.files|;
    hide Matches, OnFile, MakeFile;
    names' := names;
    if op.Make? {
      names', answer := DoMake(fs, names, op.length, op.directory, p);
    } else if op.file >= count {
      answer := Refused;
    } else {
      match op {
        case Open(i) => answer := DoOpen(fs, names, i, p);
        case Close(i) => answer := DoClose(fs, names, i, p);
        case Deny(i) => answer := DoDeny(fs, names, i, p);
        case Allow(i) => answer := DoAllow(fs, names, i, p);
        case AskDir(i) => answer := DoAskDir(fs, names, i, p);
        case Read(i, offset, size, bounceOk) => answer := DoRead(fs, names, i, offset, size, bounceOk, p);
        case Write(i, offset, buffer, bounceOk) => answer := DoWrite(fs, names, i, offset, buffer, bounceOk, p);
      }
    }
  }

  /**
   Whatever files are made, opened, closed, read and written in whatever order: every
   answer is the one the plain store gives, also when sectors run out on the way.
   */
  method Perform(fs: FileSystem, names: seq<nat>, ops: seq<FileOp>, ghost p: Plain)
    returns (names': seq<nat>, answers: seq<Answer>)
    requires Matches(fs, names, p)
    modifies fs, fs.disk`contents, fs.disk`used, fs.disk`tries, fs.disk.parts
    ensures Matches(fs, names', Final(p, ops)) && answers == Answers(p, ops)
  {
    hide Matches, Step;
    names', answers := names, [];
    assert ops[..0] == [];
    for i := 0 to |ops|
      invariant Matches(fs, names', Final(p, ops[..i])) && answers == Answers(p, ops[..i])
    {
      RunNext(p, ops[..i], ops[i]);
      assert ops[..i + 1] == ops[..i] + [ops[i]];
      var answer;
      names', answer := Do(fs, names', ops[i], Final(p, ops[..i]));
      answers := answers + [answer];
    }
    assert ops[..|ops|] == ops;
  }

  /** A run on a freshly formatted device that has room for its free map. */
  method PerformAfterFormat(device: seq<Block>, mapOk: nat -> bool, ops: seq<FileOp>) returns (answers: seq<Answer>)
    requires 4 <= |device| <= NO_SECTOR && CanMake(Bitmaps.ByteCnt(|device|))
    requires
      var size := Bitmaps.ByteCnt(|device|);
      size <= MAX_INODE_SIZE && 4 + Cost(0, size) <= |device|
    ensures
      var cost := 2 + Cost(0, Bitmaps.ByteCnt(|device|));
      answers == Answers(Plain([], Supply(|device| - 2 - cost, cost, true, mapOk)), ops)
  {
    hide Answers, FileSystem.Valid;
    var fs := new FileSystem(device, mapOk);
    var names;
    names, answers := Perform(fs, [], ops, Plain([], fs.disk.Stock()));
  }

  // ---------- What the plain store promises ----------

  ghost predicate WritesTo(ops: seq<FileOp>, i: nat) {
    exists k :: 0 <= k < |ops| && ops[k].Write? && ops[k].file == i
  }

  lemma StepSpares(p: Plain, op: FileOp, i: nat)
    requires i < |p.files| && !(op.Write? && op.file == i)
    ensures i < |Step(p, op).0.files| && Step(p, op).0.files[i].bytes == p.files[i].bytes
  {
  }

  /** A file keeps its bytes until it is written itself, whatever happens to others. */
  lemma {:induction false} OthersSpared(p: Plain, ops: seq<FileOp>, i: nat)
    requires i < |p.files| && !WritesTo(ops, i)
    ensures i < |Final(p, ops).files| && Final(p, ops).files[i].bytes == p.files[i].bytes
  {
    hide Step;
    if ops != [] {
      var front, last := ops[..|ops| - 1], ops[|ops| - 1];
      assert forall k :: 0 <= k < |front| ==> front[k] == ops[k];
      OthersSpared(p, front, i);
      StepSpares(Final(p, front), last, i);
    }
  }

  /** What a write says it wrote, a later read at that place returns, if the file was not written in between. */
  lemma ReadsBack(p: Plain, write: FileOp, ops: seq<FileOp>, n: nat)
    requires write.Write? && Step(p, write).1 == Wrote(n) && !WritesTo(ops, write.file)
    requires
      var later := Final(Step(p, write).0, ops);
      write.file < |later.files| && later.files[write.file].openers > 0
    ensures n <= |write.buffer|
    ensures
      var later := Final(Step(p, write).0, ops);
      Step(later, Read(write.file, write.offset, n, true)).1 == Got(write.buffer[..n])
  {
    hide Final, WritesTo, Step, Part;
    WriteStep(p, write, n);
    var i, x, p' := write.file, p.files[write.file], Step(p, write).0;
    OthersSpared(p', ops, i);
    WriteThenPart(x, p.stock, write.offset, write.buffer, write.bounceOk);
    ReadStep(Final(p', ops), i, write.offset, n);
  }

  lemma WriteThenPart(x: PlainFile, stock: Supply, offset: nat, buffer: seq<byte>, bounceOk: bool)
    ensures
      var n := WriteCount(x, stock, offset, |buffer|, bounceOk);
      Part(AfterWrite(x, stock, offset, buffer, bounceOk).bytes, offset, n, true) == buffer[..n]
  {
    hide Grows;
    var n := WriteCount(x, stock, offset, |buffer|, bounceOk);
    var bytes := AfterWrite(x, stock, offset, buffer, bounceOk).bytes;
    assert n > 0 ==> bytes[offset..offset + n] == buffer[..n];
  }

  lemma WriteStep(p: Plain, write: FileOp, n: nat)
    requires write.Write? && Step(p, write).1 == Wrote(n)
    ensures write.file < |p.files| && write.file < |Step(p, write).0.files|
    ensures
      var x := p.files[write.file];
      && n == WriteCount(x, p.stock, write.offset, |write.buffer|, write.bounceOk)
      && Step(p, write).0.files[write.file] == AfterWrite(x, p.stock, write.offset, write.buffer, write.bounceOk)
  {
    hide WriteCount, AfterWrite, StockAfterWrite;
  }

  lemma ReadStep(p: Plain, i: nat, offset: nat, size: nat)
    requires i < |p.files| && p.files[i].openers > 0
    ensures Step(p, Read(i, offset, size, true)).1 == Got(Part(p.files[i].bytes, offset, size, true))
  {
    hide Part;
  }
}
