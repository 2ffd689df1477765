/**
 Archive headers byte by byte: which 512 bytes are accepted as what, and which bytes are
 written, in the numbers of the ustar format.
 */
module UstarLaws {

  import opened Options
  import opened Blocks
  import NumberText
  import opened Ustar

  // ---------- Numbers and sums ----------

  predicate OctalDigits(s: Bytes) {
    forall i :: 0 <= i < |s| ==> 48 <= s[i] <= 55
  }

  /** The number that octal digits stand for, highest first. */
  function Positional(s: Bytes): int {
    if s == [] then 0 else Positional(s[..|s| - 1]) * 8 + s[|s| - 1] - 48
  }

  /** The field begins with `k` octal digits for `v`, and a space or a null byte after them. */
  ghost predicate SaysIn(field: Bytes, v: nat, k: nat) {
    && 0 < k < |field| && OctalDigits(field[..k]) && (field[k] == 32 || field[k] == 0)
    && Positional(field[..k]) == v <= 4294967295
  }

  ghost predicate Says(field: Bytes, v: nat) {
    exists k: nat :: SaysIn(field, v, k)
  }

  /** All bytes added up. */
  function Total(s: Bytes): nat {
    if s == [] then 0 else Total(s[..|s| - 1]) + s[|s| - 1]
  }

  /** The sum of a header with spaces for its bytes 148 to 155. */
  function SumOf(h: Bytes): nat {
    if |h| < 156 then 0 else Total(h[..148]) + 8 * 32 + Total(h[156..])
  }

  lemma {:induction false} ValueIs(s: Bytes, k: nat, i: nat)
    requires i <= k < |s| && OctalDigits(s[..k]) && !(48 <= s[k] <= 55)
    requires Positional(s[..i]) >= 0
    ensures Value(s[i..], Positional(s[..i])) == Positional(s[..k])
    decreases k - i
  {
    if i < k {
      var p := Positional(s[..i]);
      assert s[..k][i] == s[i];
      assert s[..i + 1][..i] == s[..i] && s[..i + 1][i] == s[i];
      assert Positional(s[..i + 1]) == p * 8 + (s[i] - 48);
      assert s[i..][1..] == s[i + 1..];
      ValueIs(s, k, i + 1);
    }
  }

  /** A field is read as the number it says, and refused if it says none. */
  lemma HoldsIff(s: Bytes, v: nat)
    ensures Holds(s, v) <==> Says(s, v)
  {
    if exists k: nat :: EndsAt(s, k) {
      var k: nat :| EndsAt(s, k);
      ReadsAs(s, k);
      if Holds(s, v) {
        assert SaysIn(s, v, k);
      }
    }
    if Says(s, v) {
      var k: nat :| SaysIn(s, v, k);
      assert forall i :: 0 <= i < k ==> s[..k][i] == s[i];
      assert EndsAt(s, k);
      ReadsAs(s, k);
    }
  }

  lemma ReadsAs(s: Bytes, k: nat)
    requires EndsAt(s, k)
    ensures OctalDigits(s[..k]) && Value(s, 0) == Positional(s[..k])
  {
    assert OctalDigits(s[..k]);
    assert s[..0] == [] && s[0..] == s;
    ValueIs(s, k, 0);
  }

  lemma FieldSays(s: Bytes)
    ensures Field(s).Some? ==> Says(s, Field(s).value)
    ensures forall v: nat :: Says(s, v) ==> Field(s) == Some(v)
  {
    if exists v: nat :: Holds(s, v) {
      var v: nat :| Holds(s, v);
      HoldsIff(s, v);
    }
    forall v: nat | Says(s, v)
      ensures Field(s) == Some(v)
    {
      HoldsIff(s, v);
    }
  }

  lemma {:induction false} SumUpTo(h: Bytes, n: nat)
    requires |h| == 512 && n <= 512
    ensures Sum(h, n) ==
      if n <= 148 then Total(h[..n])
      else if n <= 156 then Total(h[..148]) + 32 * (n - 148)
      else Total(h[..148]) + 256 + Total(h[156..n])
  {
    if n > 0 {
      SumUpTo(h, n - 1);
      if n <= 148 {
        assert h[..n][..n - 1] == h[..n - 1];
      } else if n > 156 {
        assert h[156..n][..n - 157] == h[156..n - 1];
      }
    }
  }

  /** The checksum is the sum of all bytes outside its field and of eight spaces. */
  lemma ChecksumIs(h: Bytes)
    requires |h| == 512
    ensures Checksum(h) == SumOf(h)
  {
    SumUpTo(h, 512);
    assert h[156..512] == h[156..];
  }

  // ---------- What is accepted ----------

  /** The tests that come before the type. */
  ghost predicate Formed(h: Bytes) {
    && |h| == 512
    && h[257..263] == [117, 115, 116, 97, 114, 0] && h[263] == 48 && h[264] == 48
    && Says(h[148..156], SumOf(h))
    && h[99] == 0 && h[345] == 0
  }

  /** The name that the header has, up to its first null byte. */
  ghost predicate NameEnds(h: Bytes, n: nat) {
    n < 100 <= |h| && h[n] == 0 && forall i :: 0 <= i < n ==> h[i] != 0
  }

  /**
   A header is accepted exactly if magic, version, checksum and name are in order and it is
   a directory, of type 5, or a regular file, of type 0, whose size is an int.
   */
  lemma AcceptedIff(h: Bytes)
    requires |h| == 512
    ensures Verdict(h).File? <==>
      Formed(h) && (h[156] == 53 || (h[156] == 48 && exists v: nat :: Says(h[124..136], v) && v <= 2147483647))
  {
    AcceptedForm(h);
    hide Formed, Says;
    if Formed(h) {
      FieldSays(h[124..136]);
    }
  }

  /** What is taken from an accepted header. */
  lemma AcceptedAs(h: Bytes, n: nat)
    requires |h| == 512 && Verdict(h).File? && NameEnds(h, n)
    ensures
      var e := Verdict(h);
      && e.name == Strip(h[..n])
      && (h[156] == 53 ==> e.type_ == Directory && e.size == 0)
      && (h[156] == 48 ==> e.type_ == Regular && Says(h[124..136], e.size) && e.size <= 2147483647)
  {
    FieldSays(h[124..136]);
    assert h[..100][..n] == h[..n] && h[..100][n] == 0;
    CStringOf(h[..n], h[..100]);
    hide Strip, CString, Field, Says, AllZeros, Checksum;
  }

  /** The form of a header decides whether its type is looked at. */
  lemma AcceptedForm(h: Bytes)
    requires |h| == 512
    ensures !Formed(h) ==> !Verdict(h).File?
    ensures Formed(h) ==>
      (Verdict(h) ==
       if h[156] == 53 then File(Strip(CString(h[..100])), Directory, 0)
       else if h[156] != 48 then Bad("unimplemented file type")
       else if Field(h[124..136]) == None then Bad("corrupt file size field")
       else if Field(h[124..136]).value > 2147483647 then Bad("file too large")
       else File(Strip(CString(h[..100])), Regular, Field(h[124..136]).value))
  {
    ChecksumIs(h);
    FieldSays(h[148..156]);
    assert h[257..263] == [117, 115, 116, 97, 114, 0] ==> h[257..263][0] == h[257] == 117;
    hide Strip, CString, Field, Says, Checksum, SumOf;
  }

  /** Which message a header gets that is not accepted: that of the first test it fails. */
  lemma RejectedWith(h: Bytes)
    requires |h| == 512
    ensures
      var zero := forall i :: 0 <= i < 512 ==> h[i] == 0;
      var magic := h[257..263] == [117, 115, 116, 97, 114, 0];
      var version := h[263] == 48 && h[264] == 48;
      var number := exists v: nat :: Says(h[148..156], v);
      && (Verdict(h) == Eof <==> zero)
      && (Verdict(h) == Bad("not a ustar archive") <==> !zero && !magic)
      && (Verdict(h) == Bad("invalid ustar version") <==> magic && !version)
      && (Verdict(h) == Bad("corrupt chksum field") <==> magic && version && !number)
      && (Verdict(h) == Bad("checksum mismatch") <==> magic && version && number && !Says(h[148..156], SumOf(h)))
      && (Verdict(h) == Bad("file name too long") <==>
            magic && version && Says(h[148..156], SumOf(h)) && (h[99] != 0 || h[345] != 0))
      && (Verdict(h) == Bad("unimplemented file type") <==> Formed(h) && h[156] != 48 && h[156] != 53)
      && (Verdict(h) == Bad("corrupt file size field") <==>
            Formed(h) && h[156] == 48 && forall v: nat :: !Says(h[124..136], v))
      && (Verdict(h) == Bad("file too large") <==>
            Formed(h) && h[156] == 48 && exists v: nat :: Says(h[124..136], v) && v > 2147483647)
  {
    ChecksumIs(h);
    FieldSays(h[148..156]);
    FieldSays(h[124..136]);
    assert h[257..263] == [117, 115, 116, 97, 114, 0] ==> h[257..263][0] == h[257] == 117;
    hide Strip, CString, Field, Says, Checksum, SumOf;
  }

  // ---------- What is written ----------

  lemma {:induction false} OctalSays(v: nat, width: nat)
    requires v < NumberText.Pow8(width)
    ensures OctalDigits(Octal(v, width)) && Positional(Octal(v, width)) == v
  {
    if width > 0 {
      OctalSays(v / 8, width - 1);
      var s := Octal(v, width);
      assert s[..|s| - 1] == Octal(v / 8, width - 1);
    }
  }

  lemma {:induction false} SameDigits(s: Bytes, t: Bytes)
    requires |s| == |t| && OctalDigits(s) && OctalDigits(t) && Positional(s) == Positional(t)
    ensures s == t
  {
    if s != [] {
      var s', t' := s[..|s| - 1], t[..|t| - 1];
      assert s[|s| - 1] == t[|t| - 1];
      SameDigits(s', t');
      assert s == s' + [s[|s| - 1]] && t == t' + [t[|t| - 1]];
    }
  }

  lemma Modes()
    ensures Octal(420, 7) == [48, 48, 48, 48, 54, 52, 52]
    ensures Octal(493, 7) == [48, 48, 48, 48, 55, 53, 53]
    ensures Octal(0, 7) == [48, 48, 48, 48, 48, 48, 48]
  {
    assert Octal(0, 4) == [48, 48, 48, 48];
    assert Octal(6, 5) == [48, 48, 48, 48, 54] && Octal(7, 5) == [48, 48, 48, 48, 55];
    assert Octal(52, 6) == [48, 48, 48, 48, 54, 52] && Octal(61, 6) == [48, 48, 48, 48, 55, 53];
  }

  /** The time of modification that every header gets: 8 o'clock (UTC) on January 1, 2006. */
  lemma Midnight()
    ensures Octal(1136102400, 11) == [49, 48, 51, 53, 53, 55, 48, 54, 48, 48, 48]
  {
    assert Octal(67, 3) == [49, 48, 51];
    assert Octal(4333, 5) == [49, 48, 51, 53, 53];
    assert Octal(277368, 7) == [49, 48, 51, 53, 53, 55, 48];
    assert Octal(17751600, 9) == [49, 48, 51, 53, 53, 55, 48, 54, 48];
  }

  /** Places that no field is written to. */
  predicate Gap(name: Bytes, x: nat) {
    (|name| < x < 100) || 157 <= x < 257 || 270 <= x < 297 || 302 <= x < 512
  }

  lemma GapIsZero(name: Bytes, type_: FileType, size: int, x: nat)
    requires |name| <= 99 && -0x8000_0000 <= size <= INT_MAX && Gap(name, x)
    ensures
      var h := Written(Zeros(HEADER_SIZE), Fields(name, type_, size));
      |h| == 512 && h[x] == 0
  {
    hide Fields, Octal, Unsigned, Mode, Flag, Written;
    var f := Fields(name, type_, size);
    FieldsFit(name, type_, size);
    assert Missed(f, 0, 11, x);
    NotWritten(Zeros(HEADER_SIZE), f, 11, x);
  }

  /** The bytes of a header without its checksum. */
  lemma FilledIn(name: Bytes, type_: FileType, size: int)
    requires |name| <= 99 && -0x8000_0000 <= size <= INT_MAX
    ensures
      var h := Written(Zeros(HEADER_SIZE), Fields(name, type_, size));
      && |h| == 512
      && h[0..|name| + 1] == name + [0]
      && h[100..108] == Octal(Mode(type_), 7) + [0]
      && h[108..116] == Octal(0, 7) + [0] && h[116..124] == Octal(0, 7) + [0]
      && h[124..136] == Octal(Unsigned(size), 11) + [0]
      && h[136..148] == Octal(1136102400, 11) + [0]
      && h[156..157] == [Flag(type_)]
      && h[257..263] == [117, 115, 116, 97, 114] + [0]
      && h[263..265] == [48, 48]
      && h[265..270] == [114, 111, 111, 116] + [0]
      && h[297..302] == [114, 111, 111, 116] + [0]
  {
    hide Fields, Octal, Unsigned, Mode, Flag, Written, Zeros;
    FieldsFit(name, type_, size);
    FieldSlice(name, type_, size, 0);
    FieldSlice(name, type_, size, 1);
    FieldSlice(name, type_, size, 2);
    FieldSlice(name, type_, size, 3);
    FieldSlice(name, type_, size, 4);
    FieldSlice(name, type_, size, 5);
    FieldSlice(name, type_, size, 6);
    FieldSlice(name, type_, size, 7);
    FieldSlice(name, type_, size, 8);
    FieldSlice(name, type_, size, 9);
    FieldSlice(name, type_, size, 10);
  }

  /** `width` octal digits for `v`, and a null byte. */
  ghost predicate Writes(field: Bytes, v: nat, width: nat) {
    |field| == width + 1 && OctalDigits(field[..width]) && Positional(field[..width]) == v && field[width] == 0
  }

  lemma WritesOctal(v: nat, width: nat)
    requires v < NumberText.Pow8(width)
    ensures Writes(Octal(v, width) + [0], v, width)
  {
    hide NumberText.Pow8, Octal, Positional, OctalDigits;
    OctalSays(v, width);
    assert (Octal(v, width) + [0])[..width] == Octal(v, width);
  }

  /** The text of a header, everything but numbers that depend on the file: what comes before the checksum, */
  ghost predicate StartsAs(m: Bytes, name: Bytes, type_: FileType) {
    && |m| == 512 && |name| <= 99 && m[..|name|] == name && (forall i :: |name| <= i < 100 ==> m[i] == 0)
    && m[100..108] ==
       (if type_.Regular? then [48, 48, 48, 48, 54, 52, 52, 0] else [48, 48, 48, 48, 55, 53, 53, 0])
    && m[108..116] == [48, 48, 48, 48, 48, 48, 48, 0] && m[116..124] == [48, 48, 48, 48, 48, 48, 48, 0]
    && m[136..148] == [49, 48, 51, 53, 53, 55, 48, 54, 48, 48, 48, 0]
  }

  /** and what comes after it. */
  ghost predicate EndsAs(m: Bytes, type_: FileType) {
    && |m| == 512 && m[156] == (if type_.Regular? then 48 else 53)
    && (forall i :: 157 <= i < 257 ==> m[i] == 0)
    && m[257..263] == [117, 115, 116, 97, 114, 0] && m[263..265] == [48, 48]
    && m[265..270] == [114, 111, 111, 116, 0] && (forall i :: 270 <= i < 297 ==> m[i] == 0)
    && m[297..302] == [114, 111, 111, 116, 0] && (forall i :: 302 <= i < 512 ==> m[i] == 0)
  }

  /**
   A header that is made: type 0 and mode 0644, or type 5 and mode 0755, the size and the
   checksum in octal, and every other byte as given.
   */
  lemma MadeIs(name: Bytes, type_: FileType, size: int)
    requires |name| <= 99 && -0x8000_0000 <= size <= INT_MAX
    ensures
      var m := Made(name, type_, size);
      && StartsAs(m, name, type_) && EndsAs(m, type_)
      && Writes(m[124..136], if size < 0 then size + 4294967296 else size, 11)
      && Writes(m[148..156], SumOf(m), 7)
  {
    hide Fields, Octal, Written, Zeros, Sealed, Writes, StartsAs, EndsAs, SumOf, Sum, NumberText.Pow8;
    var h := Written(Zeros(HEADER_SIZE), Fields(name, type_, size));
    WrittenLength(Zeros(HEADER_SIZE), Fields(name, type_, size));
    StartIs(name, type_, size);
    EndIs(name, type_, size);
    NumbersAre(name, type_, size, h);
  }

  lemma NumbersAre(name: Bytes, type_: FileType, size: int, h: Bytes)
    requires |name| <= 99 && -0x8000_0000 <= size <= INT_MAX && |h| == 512
    requires h == Written(Zeros(HEADER_SIZE), Fields(name, type_, size))
    ensures |Sealed(h)| == 512
    ensures Writes(Sealed(h)[124..136], if size < 0 then size + 4294967296 else size, 11)
    ensures Writes(Sealed(h)[148..156], SumOf(Sealed(h)), 7)
  {
    hide Fields, Octal, Written, Zeros, Sealed, Writes, SumOf, Sum, NumberText.Pow8;
    FilledIn(name, type_, size);
    SealedIs(h);
    SealedSlice(h, 124, 136);
    SevenDigits(h);
    ElevenDigits(Unsigned(size));
    ChecksumIs(Sealed(h));
  }

  lemma SevenDigits(h: Bytes)
    requires |h| == 512
    ensures Writes(Octal(Checksum(h), 7) + [0], Checksum(h), 7)
  {
    hide Writes;
    ChecksumFits(h, 512);
    assert NumberText.Pow8(7) == 0x20_0000;
    WritesOctal(Checksum(h), 7);
  }

  lemma ElevenDigits(v: nat)
    requires v < 0x1_0000_0000
    ensures Writes(Octal(v, 11) + [0], v, 11)
  {
    hide Writes;
    assert NumberText.Pow8(11) == 512 * NumberText.Pow8(8) && NumberText.Pow8(8) == 512 * NumberText.Pow8(5)
      && NumberText.Pow8(5) == 0x8000;
    WritesOctal(v, 11);
  }

  lemma SealedGap(name: Bytes, type_: FileType, size: int, x: nat)
    requires |name| <= 99 && -0x8000_0000 <= size <= INT_MAX && Gap(name, x)
    ensures |Made(name, type_, size)| == 512 && Made(name, type_, size)[x] == 0
  {
    hide Fields, Octal, Written, Zeros, Sealed, Checksum;
    GapIsZero(name, type_, size, x);
    SealedIs(Written(Zeros(HEADER_SIZE), Fields(name, type_, size)));
  }

  lemma StartIs(name: Bytes, type_: FileType, size: int)
    requires |name| <= 99 && -0x8000_0000 <= size <= INT_MAX
    ensures StartsAs(Made(name, type_, size), name, type_)
  {
    hide Fields, Octal, Written, Zeros, Sealed, Checksum, Unsigned;
    var h, m := Written(Zeros(HEADER_SIZE), Fields(name, type_, size)), Made(name, type_, size);
    FilledIn(name, type_, size);
    SealedSlice(h, 0, |name| + 1);
    SealedSlice(h, 100, 108);
    SealedSlice(h, 108, 116);
    SealedSlice(h, 116, 124);
    SealedSlice(h, 136, 148);
    Modes();
    Midnight();
    NameThenNull(m, name);
    forall x: nat | |name| < x < 100
      ensures m[x] == 0
    {
      SealedGap(name, type_, size, x);
    }
  }

  lemma NameThenNull(m: Bytes, name: Bytes)
    requires |name| < |m| && m[0..|name| + 1] == name + [0]
    ensures m[..|name|] == name && m[|name|] == 0
  {
    assert forall i :: 0 <= i < |name| + 1 ==> m[i] == m[0..|name| + 1][i];
  }

  lemma EndIs(name: Bytes, type_: FileType, size: int)
    requires |name| <= 99 && -0x8000_0000 <= size <= INT_MAX
    ensures EndsAs(Made(name, type_, size), type_)
  {
    hide Fields, Octal, Written, Zeros, Sealed, Checksum, Unsigned, Mode;
    var h, m := Written(Zeros(HEADER_SIZE), Fields(name, type_, size)), Made(name, type_, size);
    FilledIn(name, type_, size);
    SealedSlice(h, 156, 157);
    SealedSlice(h, 257, 263);
    SealedSlice(h, 263, 265);
    SealedSlice(h, 265, 270);
    SealedSlice(h, 297, 302);
    assert m[156] == m[156..157][0];
    forall x: nat | 157 <= x < 257 || 270 <= x < 297 || 302 <= x < 512
      ensures m[x] == 0
    {
      SealedGap(name, type_, size, x);
    }
  }
}
