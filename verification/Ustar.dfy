/**
 Headers of ustar archives: composing and parsing them.
 */
module Ustar {

  import opened Options
  import opened Blocks
  import NumberText

  const HEADER_SIZE: nat := 512
  const ULONG_MAX: nat := 0xffff_ffff
  const INT_MAX: nat := 0x7fff_ffff

  const SLASH: byte := 47
  const DOT: byte := 46
  const SPACE: byte := 32
  const ZERO: byte := 48

  // Fields of a header: where they start, and where the next one does.
  const SIZE: nat := 124
  const MTIME: nat := 136
  const CHKSUM: nat := 148
  const TYPEFLAG: nat := 156
  const MAGIC: nat := 257
  const VERSION: nat := 263
  const PREFIX: nat := 345

  type Bytes = seq<byte>

  // ---------- File names ----------

  predicate Antisocial(name: Bytes) {
    || (|name| >= 1 && name[0] == SLASH)
    || (|name| >= 2 && name[0] == DOT && name[1] == SLASH)
    || (|name| >= 3 && name[0] == DOT && name[1] == DOT && name[2] == SLASH)
  }

  /** A name that stays below the directory it is extracted to, as far as its start goes. */
  predicate Safe(name: Bytes) {
    name != [] && name != [DOT, DOT] && !Antisocial(name)
  }

  /** What follows the first slash. */
  function AfterSlash(name: Bytes): Bytes {
    if name == [] || name[0] == SLASH then name[if name == [] then 0 else 1..] else AfterSlash(name[1..])
  }

  lemma {:induction false} AfterSlashShorter(name: Bytes)
    requires name != []
    ensures |AfterSlash(name)| < |name|
  {
    if name[0] != SLASH && |name| > 1 {
      AfterSlashShorter(name[1..]);
    }
  }

  function Drop(name: Bytes): Bytes
    decreases |name|
  {
    if Antisocial(name) then AfterSlashShorter(name); Drop(AfterSlash(name)) else name
  }

  function Strip(name: Bytes): Bytes {
    if Drop(name) == [] || Drop(name) == [DOT, DOT] then [DOT] else Drop(name)
  }

  lemma {:induction false} DropIsSocial(name: Bytes)
    ensures !Antisocial(Drop(name))
    decreases |name|
  {
    if Antisocial(name) {
      AfterSlashShorter(name);
      DropIsSocial(AfterSlash(name));
    }
  }

  /** A run of the pieces "/", "./" and "../". */
  ghost predicate Climbs(p: Bytes)
    decreases |p|
  {
    || p == []
    || (p[0] == SLASH && Climbs(p[1..]))
    || (|p| >= 2 && p[..2] == [DOT, SLASH] && Climbs(p[2..]))
    || (|p| >= 3 && p[..3] == [DOT, DOT, SLASH] && Climbs(p[3..]))
  }

  /** `r` is `name` without the pieces that make up its first `n` bytes; "." if nothing or ".." is left. */
  ghost predicate StrippedAt(name: Bytes, n: nat, r: Bytes) {
    && n <= |name| && Climbs(name[..n]) && !Antisocial(name[n..])
    && r == if name[n..] == [] || name[n..] == [DOT, DOT] then [DOT] else name[n..]
  }

  lemma AfterPiece(name: Bytes, j: nat)
    requires Antisocial(name) && j == if name[0] == SLASH then 1 else if name[1] == SLASH then 2 else 3
    ensures AfterSlash(name) == name[j..]
  {
    if j == 2 {
      assert AfterSlash(name) == AfterSlash(name[1..]) == name[1..][1..] == name[2..];
    } else if j == 3 {
      assert AfterSlash(name) == AfterSlash(name[1..]) && name[1..][1..] == name[2..];
      assert AfterSlash(name[1..]) == AfterSlash(name[2..]) == name[2..][1..] == name[3..];
    }
  }

  lemma {:induction false} DropIsSuffix(name: Bytes) returns (n: nat)
    ensures n <= |name| && Climbs(name[..n]) && Drop(name) == name[n..]
    decreases |name|
  {
    if !Antisocial(name) {
      n := 0;
    } else {
      var j := if name[0] == SLASH then 1 else if name[1] == SLASH then 2 else 3;
      AfterPiece(name, j);
      var m := DropIsSuffix(name[j..]);
      n := j + m;
      assert name[..n][j..] == name[j..][..m];
      assert name[..n][..j] == name[..j];
    }
  }

  /** A stripped name is safe and is the name without a run of climbing pieces; a safe name is not changed. */
  lemma StripIsSafe(name: Bytes)
    ensures Safe(Strip(name))
    ensures Safe(name) ==> Strip(name) == name
    ensures Strip(Strip(name)) == Strip(name)
    ensures exists n :: StrippedAt(name, n, Strip(name))
  {
    DropIsSocial(name);
    assert !Antisocial([DOT]);
    assert Drop([DOT]) == [DOT];
    assert Drop(Drop(name)) == Drop(name);
    var n := DropIsSuffix(name);
    assert StrippedAt(name, n, Strip(name));
  }

  /** strip_antisocial_prefixes() */
  method StripPrefixes(fileName: Bytes) returns (name: Bytes)
    ensures name == Strip(fileName)
  {
    name := fileName;
    while Antisocial(name)
      invariant Drop(name) == Drop(fileName)
      decreases |name|
    {
      AfterSlashShorter(name);
      name := AfterSlash(name);
    }
    if name == [] || name == [DOT, DOT] {
      name := [DOT];
    }
  }

  // ---------- Octal fields ----------

  predicate IsOctal(c: byte) {
    48 <= c <= 55
  }

  /** The value of `acc` followed by octal digits. */
  function Value(digits: Bytes, acc: nat): nat {
    if digits == [] || !IsOctal(digits[0]) then acc else Value(digits[1..], acc * 8 + (digits[0] - 48))
  }

  /** `width` octal digits. */
  function Octal(v: nat, width: nat): (s: Bytes)
    ensures |s| == width && forall i :: 0 <= i < width ==> IsOctal(s[i])
  {
    if width == 0 then [] else Octal(v / 8, width - 1) + [48 + v % 8]
  }

  lemma {:induction false} OctalValue(v: nat, width: nat, rest: Bytes)
    requires v < NumberText.Pow8(width)
    ensures Value(Octal(v, width) + rest, 0) == Value(rest, v)
  {
    if width == 0 {
      assert Octal(v, width) + rest == rest;
    } else {
      var d: byte := 48 + v % 8;
      OctalValue(v / 8, width - 1, [d] + rest);
      assert Octal(v, width) + rest == Octal(v / 8, width - 1) + ([d] + rest);
      assert ([d] + rest)[1..] == rest;
    }
  }

  /** `k` octal digits, and then a space or a null byte. */
  ghost predicate EndsAt(s: Bytes, k: nat) {
    && 0 < k < |s| && (s[k] == SPACE || s[k] == 0)
    && forall i :: 0 <= i < k ==> IsOctal(s[i])
  }

  /** What an octal field holds: a number that fits in an unsigned long. */
  ghost predicate Holds(s: Bytes, v: nat) {
    (exists k :: EndsAt(s, k)) && v == Value(s, 0) && v <= ULONG_MAX
  }

  lemma {:induction false} ValueGrows(s: Bytes, acc: nat)
    ensures Value(s, acc) >= acc
  {
    if s != [] && IsOctal(s[0]) {
      ValueGrows(s[1..], acc * 8 + (s[0] - 48));
    }
  }

  /** parse_octal_field(): it succeeds exactly on the fields that hold a number. */
  method ParseOctalField(s: Bytes) returns (r: Option<nat>)
    ensures r.Some? ==> Holds(s, r.value)
    ensures r.None? ==> forall v :: !Holds(s, v)
  {
    var value: nat := 0;
    for ofs := 0 to |s|
      invariant forall i :: 0 <= i < ofs ==> IsOctal(s[i])
      invariant Value(s[ofs..], value) == Value(s, 0) && value <= ULONG_MAX
    {
      var c := s[ofs];
      if IsOctal(c) {
        assert s[ofs..][1..] == s[ofs + 1..];
        ValueGrows(s[ofs + 1..], value * 8 + (c - 48));
        if value > ULONG_MAX / 8 {
          return None;
        }
        value := value * 8 + (c - 48);
      } else if c == SPACE || c == 0 {
        if ofs > 0 {
          assert EndsAt(s, ofs);
          return Some(value);
        }
        return None;
      } else {
        return None;
      }
    }
    r := None;
  }

  /** A number written in octal, with a null byte behind it, is read back. */
  lemma OctalRoundTrip(v: nat, width: nat)
    requires v < NumberText.Pow8(width) && width > 0 && v <= ULONG_MAX
    ensures forall u :: Holds(Octal(v, width) + [0], u) <==> u == v
  {
    var s := Octal(v, width) + [0];
    OctalValue(v, width, [0]);
    assert EndsAt(s, width);
  }

  // ---------- The checksum ----------

  /** The byte that counts toward the checksum: those of the checksum field count as spaces. */
  function Counted(h: Bytes, i: nat): byte
    requires i < |h|
  {
    if CHKSUM <= i < TYPEFLAG then SPACE else h[i]
  }

  function Sum(h: Bytes, n: nat): nat
    requires n <= |h|
  {
    if n == 0 then 0 else Sum(h, n - 1) + Counted(h, n - 1)
  }

  function Checksum(h: Bytes): nat {
    Sum(h, |h|)
  }

  /** The checksum does not depend on its own field. */
  lemma {:induction false} ChecksumIgnoresField(h: Bytes, g: Bytes, n: nat)
    requires n <= |h| == |g| && forall i :: 0 <= i < |h| && !(CHKSUM <= i < TYPEFLAG) ==> g[i] == h[i]
    ensures Sum(g, n) == Sum(h, n)
  {
    if n > 0 {
      ChecksumIgnoresField(h, g, n - 1);
    }
  }

  lemma {:induction false} ChecksumFits(h: Bytes, n: nat)
    requires n <= |h|
    ensures Sum(h, n) <= 255 * n
  {
    if n > 0 {
      ChecksumFits(h, n - 1);
    }
  }

  /** calculate_chksum() */
  method CalculateChksum(header: array<byte>) returns (chksum: nat)
    requires header.Length == HEADER_SIZE
    ensures chksum == Checksum(header[..])
  {
    chksum := 0;
    for i := 0 to HEADER_SIZE
      invariant chksum == Sum(header[..], i)
    {
      var inChksumField := i >= CHKSUM && i < TYPEFLAG;
      chksum := chksum + if inChksumField then SPACE else header[i];
    }
  }

  // ---------- Composing a header ----------

  datatype FileType = Regular | Directory

  function Flag(type_: FileType): byte {
    if type_.Regular? then 48 else 53
  }

  /** 0644 or 0755 */
  function Mode(type_: FileType): nat {
    if type_.Regular? then 420 else 493
  }

  function Put(h: Bytes, ofs: nat, bytes: Bytes): Bytes {
    if ofs + |bytes| <= |h| then h[..ofs] + bytes + h[ofs + |bytes|..] else h
  }
  /** "ustar" */
  const USTAR: Bytes := [117, 115, 116, 97, 114]
  /** "root" */
  const ROOT: Bytes := [114, 111, 111, 116]

  /** An int as printf() converts it with %o. */
  function Unsigned(size: int): nat
    requires -0x8000_0000 <= size <= INT_MAX
  {
    if size < 0 then size + 0x1_0000_0000 else size
  }

  /** The writes that fill in a header, but for the checksum. */
  function Fields(name: Bytes, type_: FileType, size: int): seq<(nat, Bytes)>
    requires -0x8000_0000 <= size <= INT_MAX
  {
    [(0, name + [0]),
     (100, Octal(Mode(type_), 7) + [0]),
     (108, Octal(0, 7) + [0]),
     (116, Octal(0, 7) + [0]),
     (SIZE, Octal(Unsigned(size), 11) + [0]),
     (MTIME, Octal(1136102400, 11) + [0]),
     (TYPEFLAG, [Flag(type_)]),
     (MAGIC, USTAR + [0]),
     (VERSION, [ZERO, ZERO]),
     (297, ROOT + [0]),
     (265, ROOT + [0])]
  }

  function Written(h: Bytes, fields: seq<(nat, Bytes)>): Bytes {
    if fields == [] then h else Put(Written(h, fields[..|fields| - 1]), fields[|fields| - 1].0, fields[|fields| - 1].1)
  }

  /** A header with its checksum filled in. */
  function Sealed(h: Bytes): Bytes {
    Put(h, CHKSUM, Octal(Checksum(h), 7) + [0])
  }

  function Made(name: Bytes, type_: FileType, size: int): Bytes
    requires -0x8000_0000 <= size <= INT_MAX
  {
    Sealed(Written(Zeros(HEADER_SIZE), Fields(name, type_, size)))
  }

  method Store(header: array<byte>, ofs: nat, bytes: Bytes)
    requires ofs + |bytes| <= header.Length
    modifies header
    ensures header[..] == Put(old(header[..]), ofs, bytes)
  {
    ghost var before := header[..];
    for i := 0 to |bytes|
      invariant forall k :: 0 <= k < header.Length ==>
        header[k] == if ofs <= k < ofs + i then bytes[k - ofs] else before[k]
    {
      header[ofs + i] := bytes[i];
    }
  }

  /** Writes one of the fields, after the ones before it. */
  method StoreField(header: array<byte>, ofs: nat, bytes: Bytes, ghost fields: seq<(nat, Bytes)>, ghost k: nat)
    requires header.Length == HEADER_SIZE && k < |fields| && fields[k] == (ofs, bytes) && ofs + |bytes| <= HEADER_SIZE
    requires header[..] == Written(Zeros(HEADER_SIZE), fields[..k])
    modifies header
    ensures header[..] == Written(Zeros(HEADER_SIZE), fields[..k + 1])
  {
    assert fields[..k + 1][..k] == fields[..k];
    hide Put, Zeros;
    Store(header, ofs, bytes);
  }

  lemma NothingWritten(h: Bytes, fields: seq<(nat, Bytes)>)
    ensures Written(h, fields[..0]) == h
  {
  }

  lemma FieldsFit(name: Bytes, type_: FileType, size: int)
    requires -0x8000_0000 <= size <= INT_MAX
    ensures
      var f := Fields(name, type_, size);
      && |f| == 11 && f[..11] == f
      && f[0] == (0, name + [0])
      && f[1] == (100, Octal(Mode(type_), 7) + [0])
      && f[2] == (108, Octal(0, 7) + [0]) && f[3] == (116, Octal(0, 7) + [0])
      && f[4] == (SIZE, Octal(Unsigned(size), 11) + [0]) && f[5] == (MTIME, Octal(1136102400, 11) + [0])
      && f[6] == (TYPEFLAG, [Flag(type_)]) && f[7] == (MAGIC, USTAR + [0]) && f[8] == (VERSION, [ZERO, ZERO])
      && f[9] == (297, ROOT + [0]) && f[10] == (265, ROOT + [0])
  {
    hide Octal, Unsigned;
  }

  /** Fills in a cleared header, but for the checksum. */
  method FillIn(name: Bytes, type_: FileType, size: int, header: array<byte>)
    requires header.Length == HEADER_SIZE && -0x8000_0000 <= size <= INT_MAX && |name| <= 99
    requires header[..] == Zeros(HEADER_SIZE)
    modifies header
    ensures header[..] == Written(Zeros(HEADER_SIZE), Fields(name, type_, size))
  {
    hide Fields, Written, Zeros, Octal, Unsigned, Put, Mode, Flag;
    ghost var f := Fields(name, type_, size);
    FieldsFit(name, type_, size);
    NothingWritten(Zeros(HEADER_SIZE), f);
    StoreField(header, 0, name + [0], f, 0);
    StoreField(header, 100, Octal(Mode(type_), 7) + [0], f, 1);
    StoreField(header, 108, Octal(0, 7) + [0], f, 2);
    StoreField(header, 116, Octal(0, 7) + [0], f, 3);
    StoreField(header, SIZE, Octal(Unsigned(size), 11) + [0], f, 4);
    StoreField(header, MTIME, Octal(1136102400, 11) + [0], f, 5);
    StoreField(header, TYPEFLAG, [Flag(type_)], f, 6);
    StoreField(header, MAGIC, USTAR + [0], f, 7);
    StoreField(header, VERSION, [ZERO, ZERO], f, 8);
    StoreField(header, 297, ROOT + [0], f, 9);
    StoreField(header, 265, ROOT + [0], f, 10);
  }

  /** ustar_make_header() */
  method MakeHeader(fileName: Bytes, type_: FileType, size: int, header: array<byte>) returns (ok: bool)
    requires header.Length == HEADER_SIZE && -0x8000_0000 <= size <= INT_MAX
    modifies header
    ensures ok <==> |Strip(fileName)| <= 99
    ensures header[..] == if ok then Made(Strip(fileName), type_, size) else old(header[..])
  {
    var name := StripPrefixes(fileName);
    hide Strip, Octal, Sum, Fields, Written, Zeros;
    if |name| > 99 {
      return false;
    }
    Store(header, 0, Zeros(HEADER_SIZE));
    assert header[..] == Zeros(HEADER_SIZE);
    hide Put;
    FillIn(name, type_, size, header);
    var chksum := CalculateChksum(header);
    Store(header, CHKSUM, Octal(chksum, 7) + [0]);
    ok := true;
  }

  // ---------- Parsing a header ----------

  datatype Entry = Eof | File(name: Bytes, type_: FileType, size: nat) | Bad(message: string)

  /** The bytes before the first null byte. */
  function CString(s: Bytes): Bytes {
    if s == [] || s[0] == 0 then [] else [s[0]] + CString(s[1..])
  }

  ghost predicate AllZeros(h: Bytes) {
    forall i :: 0 <= i < |h| ==> h[i] == 0
  }

  /** The number in an octal field. */
  ghost function Field(s: Bytes): Option<nat> {
    if exists v :: Holds(s, v) then Some(Value(s, 0)) else None
  }

  /** What a header says. */
  ghost function Verdict(h: Bytes): Entry
    requires |h| == HEADER_SIZE
  {
    if AllZeros(h) then Eof
    else if h[MAGIC..VERSION] != USTAR + [0] then Bad("not a ustar archive")
    else if h[VERSION] != ZERO || h[VERSION + 1] != ZERO then Bad("invalid ustar version")
    else if Field(h[CHKSUM..TYPEFLAG]) == None then Bad("corrupt chksum field")
    else if Field(h[CHKSUM..TYPEFLAG]).value != Checksum(h) then Bad("checksum mismatch")
    else if h[99] != 0 || h[PREFIX] != 0 then Bad("file name too long")
    else if h[TYPEFLAG] == Flag(Directory) then File(Strip(CString(h[..100])), Directory, 0)
    else if h[TYPEFLAG] != Flag(Regular) then Bad("unimplemented file type")
    else if Field(h[SIZE..MTIME]) == None then Bad("corrupt file size field")
    else if Field(h[SIZE..MTIME]).value > INT_MAX then Bad("file too large")
    else File(Strip(CString(h[..100])), Regular, Field(h[SIZE..MTIME]).value)
  }

  method IsAllZeros(header: array<byte>) returns (r: bool)
    ensures r <==> AllZeros(header[..])
  {
    for i := 0 to header.Length
      invariant forall k :: 0 <= k < i ==> header[k] == 0
    {
      if header[i] != 0 {
        assert header[..][i] != 0;
        return false;
      }
    }
    r := true;
  }

  lemma FieldIs(s: Bytes, r: Option<nat>)
    requires r.Some? ==> Holds(s, r.value)
    requires r.None? ==> forall v :: !Holds(s, v)
    ensures Field(s) == r
  {
  }

  /** ustar_parse_header() */
  method ParseHeader(header: array<byte>) returns (r: Entry)
    requires header.Length == HEADER_SIZE
    ensures r == Verdict(header[..])
  {
    hide Field, Holds, Strip, AllZeros, Checksum;
    ghost var h := header[..];
    var zeros := IsAllZeros(header);
    if zeros {
      return Eof;
    }
    if header[MAGIC..VERSION] != USTAR + [0] {
      return Bad("not a ustar archive");
    }
    if header[VERSION] != ZERO || header[VERSION + 1] != ZERO {
      return Bad("invalid ustar version");
    }
    var chksum := ParseOctalField(header[CHKSUM..TYPEFLAG]);
    FieldIs(h[CHKSUM..TYPEFLAG], chksum);
    if chksum.None? {
      return Bad("corrupt chksum field");
    }
    var sum := CalculateChksum(header);
    if chksum.value != sum {
      return Bad("checksum mismatch");
    }
    if header[99] != 0 || header[PREFIX] != 0 {
      return Bad("file name too long");
    }
    r := ParseEntry(header);
  }

  /** The rest of the header, once its form is right. */
  method ParseEntry(header: array<byte>) returns (r: Entry)
    requires header.Length == HEADER_SIZE
    ensures r ==
      var h := header[..];
      if h[TYPEFLAG] == Flag(Directory) then File(Strip(CString(h[..100])), Directory, 0)
      else if h[TYPEFLAG] != Flag(Regular) then Bad("unimplemented file type")
      else if Field(h[SIZE..MTIME]) == None then Bad("corrupt file size field")
      else if Field(h[SIZE..MTIME]).value > INT_MAX then Bad("file too large")
      else File(Strip(CString(h[..100])), Regular, Field(h[SIZE..MTIME]).value)
  {
    hide Field, Holds, Strip, CString;
    ghost var h := header[..];
    var flag := header[TYPEFLAG];
    if flag != Flag(Regular) && flag != Flag(Directory) {
      return Bad("unimplemented file type");
    }
    var size: nat := 0;
    if flag == Flag(Regular) {
      var value := ParseOctalField(header[SIZE..MTIME]);
      FieldIs(h[SIZE..MTIME], value);
      if value.None? {
        return Bad("corrupt file size field");
      } else if value.value > INT_MAX {
        return Bad("file too large");
      }
      size := value.value;
    }
    var name := StripPrefixes(CString(header[..100]));
    r := File(name, if flag == Flag(Regular) then Regular else Directory, size);
  }

  /** Whatever a header holds, the name taken from it is safe and the size an int. */
  lemma VerdictIsSafe(h: Bytes)
    requires |h| == HEADER_SIZE
    ensures Verdict(h).File? ==> Safe(Verdict(h).name) && Verdict(h).size <= INT_MAX
  {
    StripIsSafe(CString(h[..100]));
  }

  // ---------- Parsing a header that was made ----------

  /** No field from `from` to `to` is written over place `x`. */
  ghost predicate Missed(fields: seq<(nat, Bytes)>, from: nat, to: nat, x: nat) {
    forall j :: from <= j < to && j < |fields| ==> !Covers(fields[j], x)
  }

  predicate Covers(field: (nat, Bytes), x: nat) {
    field.0 <= x < field.0 + |field.1|
  }

  lemma {:induction false} WrittenLength(h: Bytes, fields: seq<(nat, Bytes)>)
    ensures |Written(h, fields)| == |h|
  {
    if fields != [] {
      WrittenLength(h, fields[..|fields| - 1]);
    }
  }

  /** A place keeps what was last written to it. */
  lemma {:induction false} WrittenAt(h: Bytes, fields: seq<(nat, Bytes)>, i: nat, n: nat, x: nat)
    requires i < n <= |fields| && x < |h| && fields[i].0 + |fields[i].1| <= |h|
    requires Covers(fields[i], x) && Missed(fields, i + 1, n, x)
    ensures |Written(h, fields[..n])| == |h| && Written(h, fields[..n])[x] == fields[i].1[x - fields[i].0]
  {
    WrittenLength(h, fields[..n]);
    WrittenLength(h, fields[..n - 1]);
    assert fields[..n][..n - 1] == fields[..n - 1];
    if n > i + 1 {
      WrittenAt(h, fields, i, n - 1, x);
    }
  }

  lemma {:induction false} NotWritten(h: Bytes, fields: seq<(nat, Bytes)>, n: nat, x: nat)
    requires n <= |fields| && x < |h| && Missed(fields, 0, n, x)
    ensures |Written(h, fields[..n])| == |h| && Written(h, fields[..n])[x] == h[x]
  {
    WrittenLength(h, fields[..n]);
    if n > 0 {
      WrittenLength(h, fields[..n - 1]);
      assert fields[..n][..n - 1] == fields[..n - 1];
      NotWritten(h, fields, n - 1, x);
    }
  }

  /** Fields do not overlap. */
  lemma FieldsApart(name: Bytes, type_: FileType, size: int, i: nat, x: nat)
    requires |name| <= 99 && -0x8000_0000 <= size <= INT_MAX && i < 11 && Covers(Fields(name, type_, size)[i], x)
    ensures Missed(Fields(name, type_, size), i + 1, 11, x)
  {
    FieldsFit(name, type_, size);
    hide Fields, Octal, Unsigned, Mode, Flag;
  }

  lemma FieldsInside(name: Bytes, type_: FileType, size: int, i: nat)
    requires |name| <= 99 && -0x8000_0000 <= size <= INT_MAX && i < 11
    ensures var f := Fields(name, type_, size); f[i].0 + |f[i].1| <= HEADER_SIZE
  {
    FieldsFit(name, type_, size);
    hide Fields, Octal, Unsigned, Mode, Flag;
  }

  /** No field reaches the prefix, and only the name can reach its own last byte. */
  lemma PlacesMissed(name: Bytes, type_: FileType, size: int)
    requires |name| <= 99 && -0x8000_0000 <= size <= INT_MAX
    ensures var f := Fields(name, type_, size); Missed(f, 1, 11, 99) && Missed(f, 0, 11, PREFIX)
  {
    FieldsFit(name, type_, size);
    hide Fields, Octal, Unsigned, Mode, Flag;
  }

  /** A header without its checksum: each field holds what was written to it. */
  lemma FieldSlice(name: Bytes, type_: FileType, size: int, i: nat)
    requires |name| <= 99 && -0x8000_0000 <= size <= INT_MAX && i < 11
    ensures
      var f, h := Fields(name, type_, size), Written(Zeros(HEADER_SIZE), Fields(name, type_, size));
      |f| == 11 && |h| == HEADER_SIZE && f[i].0 + |f[i].1| <= HEADER_SIZE && h[f[i].0..f[i].0 + |f[i].1|] == f[i].1
  {
    hide Fields, Octal, Unsigned, Mode, Flag, Written, Missed, Zeros;
    var f := Fields(name, type_, size);
    FieldsFit(name, type_, size);
    FieldsInside(name, type_, size, i);
    WrittenLength(Zeros(HEADER_SIZE), f);
    SliceWritten(name, type_, size, i, f[i].0, f[i].1, Written(Zeros(HEADER_SIZE), f));
  }

  lemma SliceWritten(name: Bytes, type_: FileType, size: int, i: nat, ofs: nat, bytes: Bytes, h: Bytes)
    requires |name| <= 99 && -0x8000_0000 <= size <= INT_MAX && i < 11 && ofs + |bytes| <= HEADER_SIZE == |h|
    requires
      var f := Fields(name, type_, size);
      |f| == 11 && f[..11] == f && h == Written(Zeros(HEADER_SIZE), f) && f[i] == (ofs, bytes)
    ensures h[ofs..ofs + |bytes|] == bytes
  {
    hide Fields, Written, Missed, Zeros;
    forall k | 0 <= k < |bytes|
      ensures h[ofs + k] == bytes[k]
    {
      FieldsApart(name, type_, size, i, ofs + k);
      WrittenAt(Zeros(HEADER_SIZE), Fields(name, type_, size), i, 11, ofs + k);
    }
  }

  lemma EmptyPlaces(name: Bytes, type_: FileType, size: int)
    requires |name| <= 99 && -0x8000_0000 <= size <= INT_MAX
    ensures
      var h := Written(Zeros(HEADER_SIZE), Fields(name, type_, size));
      |h| == HEADER_SIZE && h[99] == 0 && h[PREFIX] == 0
  {
    var f := Fields(name, type_, size);
    PlacesMissed(name, type_, size);
    FieldsFit(name, type_, size);
    hide Fields, Octal, Unsigned, Mode, Flag, Written;
    var z := Zeros(HEADER_SIZE);
    NotWritten(z, f, 11, PREFIX);
    if |name| == 99 {
      WrittenAt(z, f, 0, 11, 99);
    } else {
      assert !Covers(f[0], 99);
      NotWritten(z, f, 11, 99);
    }
  }

  /** Filling in the checksum changes its field only, so the checksum stays the same. */
  lemma SealedIs(h: Bytes)
    requires |h| == HEADER_SIZE
    ensures
      var g := Sealed(h);
      && |g| == HEADER_SIZE && Checksum(g) == Checksum(h)
      && g[CHKSUM..TYPEFLAG] == Octal(Checksum(h), 7) + [0]
      && (forall i :: 0 <= i < HEADER_SIZE && !(CHKSUM <= i < TYPEFLAG) ==> g[i] == h[i])
  {
    hide Octal;
    ChecksumIgnoresField(h, Sealed(h), HEADER_SIZE);
  }

  lemma SealedSlice(h: Bytes, a: nat, b: nat)
    requires |h| == HEADER_SIZE && a <= b <= HEADER_SIZE && (b <= CHKSUM || TYPEFLAG <= a)
    ensures |Sealed(h)| == HEADER_SIZE && Sealed(h)[a..b] == h[a..b]
  {
    SealedIs(h);
    hide Sealed, Octal;
  }

  lemma OctalField(v: nat, width: nat)
    requires v < NumberText.Pow8(width) && width > 0 && v <= ULONG_MAX
    ensures Field(Octal(v, width) + [0]) == Some(v)
  {
    OctalRoundTrip(v, width);
    assert Holds(Octal(v, width) + [0], v);
  }

  lemma ChecksumField(h: Bytes)
    requires |h| == HEADER_SIZE
    ensures |Sealed(h)| == HEADER_SIZE && Field(Sealed(h)[CHKSUM..TYPEFLAG]) == Some(Checksum(Sealed(h)))
  {
    SealedIs(h);
    ChecksumFits(h, HEADER_SIZE);
    assert NumberText.Pow8(7) == 0x20_0000;
    hide NumberText.Pow8, Sum, Sealed, Field;
    OctalField(Checksum(h), 7);
  }

  lemma {:induction false} CStringOf(name: Bytes, s: Bytes)
    requires 0 !in name && |name| < |s| && s[..|name|] == name && s[|name|] == 0
    ensures CString(s) == name
  {
    if name != [] {
      assert s[0] == s[..|name|][0] == name[0];
      assert s[1..][..|name| - 1] == s[..|name|][1..] == name[1..];
      CStringOf(name[1..], s[1..]);
    }
  }

  lemma NameField(name: Bytes, type_: FileType, size: int)
    requires |name| <= 99 && 0 !in name && -0x8000_0000 <= size <= INT_MAX
    ensures |Made(name, type_, size)| == HEADER_SIZE && CString(Made(name, type_, size)[..100]) == name
  {
    var h := Written(Zeros(HEADER_SIZE), Fields(name, type_, size));
    FieldSlice(name, type_, size, 0);
    FieldsFit(name, type_, size);
    SealedSlice(h, 0, 100);
    hide Sealed, Fields, Written, Zeros;
    var s := h[..100];
    assert h[0..100] == s && Sealed(h)[0..100] == Sealed(h)[..100];
    assert h[0..|name| + 1] == name + [0];
    assert forall i :: 0 <= i < |name| + 1 ==> s[i] == h[0..|name| + 1][i];
    assert s[..|name|] == name;
    CStringOf(name, s);
  }

  /** The fields of a finished header that parsing looks at. */
  lemma MadeFields(name: Bytes, type_: FileType, size: int)
    requires |name| <= 99 && -0x8000_0000 <= size <= INT_MAX
    ensures
      var m := Made(name, type_, size);
      && |m| == HEADER_SIZE && m[MAGIC..VERSION] == USTAR + [0] && m[VERSION] == ZERO && m[VERSION + 1] == ZERO
      && m[99] == 0 && m[PREFIX] == 0 && m[TYPEFLAG] == Flag(type_)
      && m[SIZE..MTIME] == Octal(Unsigned(size), 11) + [0]
  {
    var h := Written(Zeros(HEADER_SIZE), Fields(name, type_, size));
    FieldSlice(name, type_, size, 4);
    FieldSlice(name, type_, size, 6);
    FieldSlice(name, type_, size, 7);
    FieldSlice(name, type_, size, 8);
    FieldsFit(name, type_, size);
    EmptyPlaces(name, type_, size);
    SealedIs(h);
    SealedSlice(h, SIZE, MTIME);
    SealedSlice(h, MAGIC, VERSION);
    hide Fields, Written, Zeros, Octal, Unsigned, Sealed, Checksum;
    assert h[TYPEFLAG] == h[TYPEFLAG..TYPEFLAG + 1][0];
    assert h[VERSION] == h[VERSION..VERSION + 2][0] && h[VERSION + 1] == h[VERSION..VERSION + 2][1];
  }

  lemma SizeField(size: int)
    requires -0x8000_0000 <= size <= INT_MAX
    ensures Field(Octal(Unsigned(size), 11) + [0]) == Some(Unsigned(size))
  {
    assert NumberText.Pow8(11) == 512 * NumberText.Pow8(8) && NumberText.Pow8(8) == 512 * NumberText.Pow8(5)
      && NumberText.Pow8(5) == 0x8000;
    hide NumberText.Pow8, Octal, Field;
    OctalField(Unsigned(size), 11);
  }

  /**
   Parsing a header that was made gives back the stripped name, the type, and the size:
   0 for a directory.  A negative size comes back as one that is too large.
   */
  lemma HeaderRoundTrip(fileName: Bytes, type_: FileType, size: int)
    requires 0 !in fileName && |Strip(fileName)| <= 99 && -0x8000_0000 <= size <= INT_MAX
    ensures
      var m := Made(Strip(fileName), type_, size);
      |m| == HEADER_SIZE && Verdict(m) ==
        if type_.Directory? then File(Strip(fileName), Directory, 0)
        else if size >= 0 then File(Strip(fileName), Regular, size)
        else Bad("file too large")
  {
    var name := Strip(fileName);
    StripIsSafe(fileName);
    NoNull(fileName);
    NameField(name, type_, size);
    MadeFields(name, type_, size);
    SizeField(size);
    ChecksumField(Written(Zeros(HEADER_SIZE), Fields(name, type_, size)));
    hide Strip, Fields, Written, Zeros, Octal, Sealed, Checksum, Field, CString;
    var m := Made(name, type_, size);
    assert m[MAGIC] == m[MAGIC..VERSION][0] == 117;
    assert !AllZeros(m);
  }

  lemma {:induction false} NoNullAfterSlash(name: Bytes)
    requires 0 !in name
    ensures 0 !in AfterSlash(name)
  {
    if name != [] && name[0] != SLASH {
      NoNullAfterSlash(name[1..]);
    }
  }

  lemma {:induction false} NoNullDropped(name: Bytes)
    requires 0 !in name
    ensures 0 !in Drop(name)
    decreases |name|
  {
    if Antisocial(name) {
      AfterSlashShorter(name);
      NoNullAfterSlash(name);
      NoNullDropped(AfterSlash(name));
    }
  }

  lemma NoNull(name: Bytes)
    requires 0 !in name
    ensures 0 !in Strip(name)
  {
    NoNullDropped(name);
  }

  // ---------- Octal fields are what printf() writes ----------

  function Chars(s: Bytes): string {
    seq(|s|, i requires 0 <= i < |s| => s[i] as char)
  }

  lemma OctalDigit(d: nat)
    requires d < 8
    ensures NumberText.OCTAL.digits[d] == (48 + d) as char
  {
  }

  /** The digits of `v` with zeros in front. */
  lemma {:induction false} ZerosAndDigits(v: nat, width: nat, cnt: nat)
    requires v < NumberText.Pow8(width)
    ensures
      var low := NumberText.LowFirst(v, NumberText.OCTAL, false, cnt);
      |low| <= width && Chars(Octal(v, width)) == NumberText.Repeat('0', width - |low|) + NumberText.Reverse(low)
  {
    var low := NumberText.LowFirst(v, NumberText.OCTAL, false, cnt);
    if width > 0 {
      var next := NumberText.LowFirst(v / 8, NumberText.OCTAL, false, cnt + 1);
      ZerosAndDigits(v / 8, width - 1, cnt + 1);
      OctalDigit(v % 8);
      var c := (48 + v % 8) as char;
      assert Chars(Octal(v, width)) == Chars(Octal(v / 8, width - 1)) + [c];
      if v > 0 {
        assert low == [c] + next && low[1..] == next;
        assert NumberText.Reverse(low) == NumberText.Reverse(next) + [c];
      } else {
        assert low == [] && next == [] && c == '0';
      }
    }
  }

  /** An octal field is what a conversion with a 0 flag, a width and the letter o writes. */
  lemma OctalIsPrinted(v: nat, width: nat)
    requires v < NumberText.Pow8(width) && width > 0
    ensures
      var c := NumberText.Conversion(false, false, false, false, true, false, width, None);
      Chars(Octal(v, width)) == NumberText.Rendered(v, false, false, NumberText.OCTAL, c)
  {
    hide NumberText.Rendered, Octal, Chars;
    var c := NumberText.Conversion(false, false, false, false, true, false, width, None);
    var low, body := NumberText.LowFirst(v, NumberText.OCTAL, false, 0), NumberText.Body(v, NumberText.OCTAL, c);
    ZerosAndDigits(v, width, 0);
    assert v == 0 ==> low == "" && body == "0";
    assert v > 0 ==> low != "" && body == low;
    ZeroPadded(v, c);
  }

  lemma ZeroPadded(v: nat, c: NumberText.Conversion)
    requires c == NumberText.Conversion(false, false, false, false, true, false, c.width, None)
    ensures
      var body := NumberText.Body(v, NumberText.OCTAL, c);
      NumberText.Rendered(v, false, false, NumberText.OCTAL, c) ==
      NumberText.Repeat('0', NumberText.Pad(c, |body|)) + NumberText.Reverse(body)
  {
    hide NumberText.Body, NumberText.Reverse;
  }
}
