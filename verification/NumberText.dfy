/**
 Integers as text: the integer conversions of printf(), and atoi().
 */
module NumberText {

  import opened Options
  import opened Division

  // ---------- atoi() ----------

  predicate IsSpace(c: char) {
    c == ' ' || c == '\t' || c == '\n' || c == '\r' || c == 11 as char || c == 12 as char
  }

  predicate IsDigit(c: char) {
    '0' <= c <= '9'
  }

  function SkipSpaces(s: string): string {
    if s != [] && IsSpace(s[0]) then SkipSpaces(s[1..]) else s
  }

  /** The value of `acc` followed by the digits that `s` begins with. */
  function Number(s: string, acc: int): int {
    if s != [] && IsDigit(s[0]) then Number(s[1..], acc * 10 + (s[0] - '0') as int) else acc
  }

  function Signed(s: string): int {
    if s != [] && s[0] == '-' then -Number(s[1..], 0)
    else if s != [] && s[0] == '+' then Number(s[1..], 0)
    else Number(s, 0)
  }

  /** The integer that a string denotes. */
  function Denotes(s: string): int {
    Signed(SkipSpaces(s))
  }

  predicate Int32(x: int) {
    -0x8000_0000 <= x <= 0x7fff_ffff
  }

  /** atoi(), for a string that denotes an int: no step overflows. */
  method Atoi(s: string) returns (value: int)
    requires Int32(Denotes(s))
    ensures value == Denotes(s)
  {
    var i := 0;
    while i < |s| && IsSpace(s[i])
      invariant i <= |s| && SkipSpaces(s[i..]) == SkipSpaces(s)
    {
      assert s[i..][1..] == s[i + 1..];
      i := i + 1;
    }
    var negative := false;
    if i < |s| && s[i] == '+' {
      assert s[i..][1..] == s[i + 1..];
      i := i + 1;
    } else if i < |s| && s[i] == '-' {
      assert s[i..][1..] == s[i + 1..];
      negative := true;
      i := i + 1;
    }
    value := ParseDigits(s, i);
    if !negative {
      assert Int32(-value);
      value := -value;
    }
  }

  /** The digits from place `i` on, as a negative number. */
  method ParseDigits(s: string, start: nat) returns (value: int)
    requires start <= |s| && Number(s[start..], 0) <= 0x8000_0000
    ensures value == -Number(s[start..], 0)
  {
    var i := start;
    value := 0;
    ghost var total := Number(s[i..], 0);
    while i < |s| && IsDigit(s[i])
      invariant i <= |s| && value <= 0 && Number(s[i..], -value) == total
    {
      assert s[i..][1..] == s[i + 1..];
      NumberGrows(s[i + 1..], -value * 10 + (s[i] - '0') as int);
      assert Int32(value * 10) && Int32(value * 10 - (s[i] - '0') as int);
      value := value * 10 - (s[i] - '0') as int;
      i := i + 1;
    }
  }

  lemma {:induction false} NumberGrows(s: string, acc: int)
    requires acc >= 0
    ensures Number(s, acc) >= acc
  {
    if s != [] && IsDigit(s[0]) {
      NumberGrows(s[1..], acc * 10 + (s[0] - '0') as int);
    }
  }

  // ---------- Integer conversions ----------

  datatype Base = Base(base: nat, digits: string, x: char, group: nat)

  const NONE: char := 0 as char
  const DECIMAL := Base(10, "0123456789", NONE, 3)
  const OCTAL := Base(8, "01234567", NONE, 3)
  const HEX := Base(16, "0123456789abcdef", 'x', 4)
  const BIG_HEX := Base(16, "0123456789ABCDEF", 'X', 4)

  predicate IsBase(b: Base) {
    b == DECIMAL || b == OCTAL || b == HEX || b == BIG_HEX
  }

  /** A conversion; a precision of None is one that was not given. */
  datatype Conversion = Conversion(minus: bool, plus: bool, space: bool, pound: bool, zero: bool, group: bool,
                                   width: nat, precision: Option<nat>)

  const BUF_SIZE: nat := 64

  /** What is written for one digit: digits of a group are set off by a comma. */
  function Chunk(v: nat, b: Base, group: bool, cnt: nat): string
    requires IsBase(b)
  {
    if group && cnt > 0 && cnt % b.group == 0 then [',', b.digits[v % b.base]] else [b.digits[v % b.base]]
  }

  /** The digits of `value` from the lowest on; `cnt` digits have been written before. */
  ghost function LowFirst(value: nat, b: Base, group: bool, cnt: nat): string
    requires IsBase(b)
  {
    if value == 0 then []
    else
      Chunk(value, b, group, cnt) + LowFirst(value / b.base, b, group, cnt + 1)
  }

  function Repeat(c: char, n: nat): (s: string)
    ensures |s| == n && forall i :: 0 <= i < n ==> s[i] == c
  {
    if n == 0 then [] else [c] + Repeat(c, n - 1)
  }

  function Reverse(s: string): (r: string)
    ensures |r| == |s| && forall i :: 0 <= i < |s| ==> r[i] == s[|s| - 1 - i]
  {
    if s == [] then [] else Reverse(s[1..]) + [s[0]]
  }

  function Precision(c: Conversion): nat {
    if c.precision.None? then 1 else c.precision.value
  }

  /** Zeros for the precision, as far as the buffer goes. */
  ghost function Filled(s: string, precision: nat): string {
    var n := if precision < BUF_SIZE - 1 then precision else BUF_SIZE - 1;
    if |s| < n then s + Repeat('0', n - |s|) else s
  }

  /** The zero that an octal number begins with under the # flag. */
  ghost function OctalZero(s: string, b: Base, c: Conversion): string {
    if c.pound && b.base == 8 && (s == [] || s[|s| - 1] != '0') then s + ['0'] else s
  }

  /** The digits, lowest first, as they stand in the buffer. */
  ghost function Body(value: nat, b: Base, c: Conversion): string
    requires IsBase(b)
  {
    OctalZero(Filled(LowFirst(value, b, c.group, 0), Precision(c)), b, c)
  }

  function Sign(isSigned: bool, negative: bool, c: Conversion): string {
    if !isSigned then ""
    else if negative then "-"
    else if c.plus then "+"
    else if c.space then " "
    else ""
  }

  function Prefix(value: nat, b: Base, c: Conversion): string {
    if c.pound && value > 0 && b.x != NONE then ['0', b.x] else ""
  }

  function Pad(c: Conversion, body: nat): nat {
    if c.width > body then c.width - body else 0
  }

  /** The whole output of a conversion. */
  ghost function Rendered(value: nat, isSigned: bool, negative: bool, b: Base, c: Conversion): string
    requires IsBase(b)
  {
    var digits := Body(value, b, c);
    var head := Sign(isSigned, negative, c) + Prefix(value, b, c);
    var pad := Pad(c, |digits| + |head|);
    Repeat(' ', When(!c.minus && !c.zero, pad)) + head + Repeat('0', When(c.zero, pad)) + Reverse(digits) +
      Repeat(' ', When(c.minus, pad))
  }

  function When(wanted: bool, n: nat): nat {
    if wanted then n else 0
  }

  // ---------- The buffer is large enough ----------

  ghost function Pow8(k: nat): nat {
    if k == 0 then 1 else 8 * Pow8(k - 1)
  }

  /** Commas among `cnt` digits. */
  function Commas(group: bool, b: Base, cnt: nat): nat
    requires IsBase(b)
  {
    if group && cnt > 0 then (cnt - 1) / b.group else 0
  }

  /** A 64-bit value has at most 22 digits. */
  lemma DigitsLeft(value: nat, base: nat, k: nat)
    requires base >= 8 && k > 0 && value < Pow8(k)
    ensures value / base < Pow8(k - 1)
  {
    Times(8, base, Pow8(k - 1));
    QuotientAtMost(value, base, Pow8(k - 1));
  }

  lemma SixtyFourBits()
    ensures Pow8(22) >= 0x1_0000_0000_0000_0000
  {
    assert Pow8(4) == 0x1000;
    assert Pow8(8) == 0x100_0000;
    assert Pow8(12) == 0x10_0000_0000;
    assert Pow8(16) == 0x1_0000_0000_0000;
    assert Pow8(20) == 0x1000_0000_0000_0000;
  }

  method PutChunk(v: nat, b: Base, group: bool, cnt: nat, buf: array<char>, cp: nat) returns (next: nat)
    requires IsBase(b) && cp + 2 <= buf.Length
    modifies buf
    ensures next == cp + |Chunk(v, b, group, cnt)| && buf[..next] == old(buf[..cp]) + Chunk(v, b, group, cnt)
  {
    next := cp;
    if group && cnt > 0 && cnt % b.group == 0 {
      next := Put(buf, next, ',');
    }
    next := Put(buf, next, b.digits[v % b.base]);
  }

  /** `v` is what is left of `value` after `cnt` digits. */
  ghost predicate Writing(value: nat, b: Base, group: bool, v: int, cnt: nat, written: string)
    requires IsBase(b)
  {
    && 0 <= v && cnt <= 22 && v < Pow8(22 - cnt)
    && |written| == cnt + Commas(group, b, cnt)
    && written + LowFirst(v, b, group, cnt) == LowFirst(value, b, group, 0)
  }

  lemma WritingStep(value: nat, b: Base, group: bool, v: int, cnt: nat, written: string)
    requires IsBase(b) && Writing(value, b, group, v, cnt, written) && v > 0
    ensures 0 <= v / b.base < v && |written| <= 29
    ensures Writing(value, b, group, v / b.base, cnt + 1, written + Chunk(v, b, group, cnt))
  {
    assert Pow8(0) == 1;
    hide IsBase, Pow8, LowFirst, Commas;
    BaseOk(b);
    LowStep(v, b, group, cnt);
    DigitsLeft(v, b.base, 22 - cnt);
    CommaStep(group, b, cnt);
    CommasFew(group, b, cnt);
    var chunk, rest := Chunk(v, b, group, cnt), LowFirst(v / b.base, b, group, cnt + 1);
    assert (written + chunk) + rest == written + (chunk + rest);
  }

  lemma BaseOk(b: Base)
    requires IsBase(b)
    ensures b.base >= 8 && b.group >= 3
  {
  }

  lemma WritingEnds(value: nat, b: Base, group: bool, cnt: nat, written: string)
    requires IsBase(b) && Writing(value, b, group, 0, cnt, written)
    ensures |written| <= 29 && written == LowFirst(value, b, group, 0)
  {
    CommasFew(group, b, cnt);
  }

  lemma WritingBegins(value: nat, b: Base, group: bool)
    requires IsBase(b) && value < 0x1_0000_0000_0000_0000
    ensures Writing(value, b, group, value, 0, "")
  {
    SixtyFourBits();
    hide Pow8;
  }

  /** Writes the digits into the buffer, lowest first. */
  method WriteDigits(value: nat, b: Base, group: bool, buf: array<char>) returns (cp: nat)
    requires IsBase(b) && value < 0x1_0000_0000_0000_0000 && buf.Length == BUF_SIZE
    modifies buf
    ensures cp <= 29 && buf[..cp] == LowFirst(value, b, group, 0)
  {
    var v, digitCnt := value, 0;
    cp := 0;
    hide Writing, LowFirst, Chunk;
    WritingBegins(value, b, group);
    assert buf[..0] == "";
    while v > 0
      invariant 0 <= v && cp <= buf.Length && Writing(value, b, group, v, digitCnt, buf[..cp])
      decreases v
    {
      WritingStep(value, b, group, v, digitCnt, buf[..cp]);
      cp := PutChunk(v, b, group, digitCnt, buf, cp);
      v, digitCnt := v / b.base, digitCnt + 1;
    }
    WritingEnds(value, b, group, digitCnt, buf[..cp]);
  }

  method Put(buf: array<char>, cp: nat, ch: char) returns (next: nat)
    requires cp < buf.Length
    modifies buf
    ensures next == cp + 1 && buf[..next] == old(buf[..cp]) + [ch]
  {
    buf[cp] := ch;
    next := cp + 1;
  }

  lemma CommasFew(group: bool, b: Base, cnt: nat)
    requires IsBase(b) && cnt <= 22
    ensures Commas(group, b, cnt) <= 7
  {
  }

  lemma LowStep(v: nat, b: Base, group: bool, cnt: nat)
    requires IsBase(b) && v > 0
    ensures v / b.base < v
    ensures LowFirst(v, b, group, cnt) == Chunk(v, b, group, cnt) + LowFirst(v / b.base, b, group, cnt + 1)
  {
  }

  lemma CommaStep(group: bool, b: Base, cnt: nat)
    requires IsBase(b)
    ensures Commas(group, b, cnt + 1) == Commas(group, b, cnt) + if group && cnt > 0 && cnt % b.group == 0 then 1 else 0
  {
  }

  /** Writes the rest of the digits: zeros for the precision, and the zero of an octal number. */
  method WriteZeros(start: nat, b: Base, c: Conversion, buf: array<char>) returns (cp: nat)
    requires start < BUF_SIZE - 1 && buf.Length == BUF_SIZE
    modifies buf
    ensures cp <= BUF_SIZE && buf[..cp] == OctalZero(Filled(old(buf[..start]), Precision(c)), b, c)
  {
    cp := start;
    ghost var digits := buf[..start];
    while cp < Precision(c) && cp < BUF_SIZE - 1
      invariant start <= cp <= BUF_SIZE - 1 && (cp == start || cp <= Precision(c))
      invariant buf[..cp] == digits + Repeat('0', cp - start)
    {
      cp := Put(buf, cp, '0');
      assert buf[..cp] == digits + Repeat('0', cp - start);
    }
    assert buf[..cp] == Filled(digits, Precision(c));
    if c.pound && b.base == 8 && (cp == 0 || buf[cp - 1] != '0') {
      cp := Put(buf, cp, '0');
    }
  }

  /** Passes the buffer to the output function from its end to its start. */
  method EmitReversed(buf: array<char>, end: nat) returns (out: string)
    requires end <= buf.Length
    ensures out == Reverse(buf[..end])
  {
    out := "";
    ghost var all := Reverse(buf[..end]);
    var cp := end;
    while cp > 0
      invariant 0 <= cp <= end && out == all[..end - cp]
    {
      cp := cp - 1;
      out := out + [buf[cp]];
    }
  }

  /** format_integer(); `out` is what is passed to the output function, in order. */
  method FormatInteger(value: nat, isSigned: bool, negative: bool, b: Base, c: Conversion) returns (out: string)
    requires IsBase(b) && value < 0x1_0000_0000_0000_0000
    ensures out == Rendered(value, isSigned, negative, b, c)
  {
    hide OctalZero, Filled, LowFirst, Reverse, Repeat, Sign, Prefix, IsBase, Precision;
    var buf := new char[BUF_SIZE];
    var cp := WriteDigits(value, b, c.group, buf);
    cp := WriteZeros(cp, b, c, buf);
    assert buf[..cp] == Body(value, b, c);
    hide Body;
    var sign := Sign(isSigned, negative, c);
    var x := Prefix(value, b, c);
    var pad := Pad(c, cp + |x| + |sign|);
    out := Repeat(' ', When(!c.minus && !c.zero, pad));
    out := out + (sign + x);
    out := out + Repeat('0', When(c.zero, pad));
    var digits := EmitReversed(buf, cp);
    out := out + digits;
    out := out + Repeat(' ', When(c.minus, pad));
  }

  // ---------- How much is written ----------

  /** Everything but padding. */
  ghost function Unpadded(value: nat, isSigned: bool, negative: bool, b: Base, c: Conversion): nat
    requires IsBase(b)
  {
    |Sign(isSigned, negative, c)| + |Prefix(value, b, c)| + |Body(value, b, c)|
  }

  /** The field is filled exactly, except when both flags ask for padding: then it is padded twice. */
  lemma FieldWidth(value: nat, isSigned: bool, negative: bool, b: Base, c: Conversion)
    requires IsBase(b)
    ensures
      var n, written := Unpadded(value, isSigned, negative, b, c), |Rendered(value, isSigned, negative, b, c)|;
      && (written == (if c.width > n then c.width else n) <==> !(c.minus && c.zero && c.width > n))
      && (c.minus && c.zero && c.width > n ==> written == 2 * c.width - n)
  {
    hide IsBase, Body, Sign, Prefix, Reverse, Repeat;
  }

  /** parse_conversion(), after the flags and numbers are read: how they override each other. */
  function Settled(minus: bool, plus: bool, space: bool, pound: bool, zero: bool, group: bool, width: int,
                   precision: int): Conversion {
    Conversion(
      minus || width < 0,
      plus,
      space && !plus,
      pound,
      zero && !minus && precision < 0,
      group,
      if width < 0 then -width else width,
      if precision < 0 then None else Some(precision))
  }

  /** Both flags are left only for a 0 flag and a negative width given as an argument. */
  lemma BothFlagsIff(minus: bool, plus: bool, space: bool, pound: bool, zero: bool, group: bool, width: int,
                     precision: int)
    ensures
      var c := Settled(minus, plus, space, pound, zero, group, width, precision);
      c.minus && c.zero <==> zero && !minus && width < 0 && precision < 0
  {
  }

  /** Formatting 3 with a 0 flag and a width argument of -5 writes 9 characters. */
  lemma PaddedTwice()
    ensures |Rendered(3, true, false, DECIMAL, Settled(false, false, false, false, true, false, -5, -1))| == 9
  {
    var c := Settled(false, false, false, false, true, false, -5, -1);
    assert LowFirst(3, DECIMAL, false, 0) == Chunk(3, DECIMAL, false, 0) + LowFirst(0, DECIMAL, false, 1);
    assert Body(3, DECIMAL, c) == "3";
    FieldWidth(3, true, false, DECIMAL, c);
  }

  // ---------- Reading back what was written ----------

  lemma {:induction false} SkipsSpaces(k: nat, t: string)
    ensures SkipSpaces(Repeat(' ', k) + t) == SkipSpaces(t)
  {
    if k == 0 {
      assert Repeat(' ', k) + t == t;
    } else {
      SkipsSpaces(k - 1, t);
      assert (Repeat(' ', k) + t)[1..] == Repeat(' ', k - 1) + t;
    }
  }

  lemma {:induction false} LeadingZeros(k: nat, t: string)
    ensures Number(Repeat('0', k) + t, 0) == Number(t, 0)
  {
    if k == 0 {
      assert Repeat('0', k) + t == t;
    } else {
      LeadingZeros(k - 1, t);
      assert (Repeat('0', k) + t)[1..] == Repeat('0', k - 1) + t;
    }
  }

  lemma StopsAtSpaces(k: nat, acc: int)
    ensures Number(Repeat(' ', k), acc) == acc
  {
  }

  lemma DecimalDigit(d: nat)
    requires d < 10
    ensures IsDigit(DECIMAL.digits[d]) && (DECIMAL.digits[d] - '0') as int == d
  {
  }

  /** The digits of a number, highest first, read as that number. */
  lemma {:induction false} DigitsReadBack(v: nat, cnt: nat, rest: string)
    ensures Number(Reverse(LowFirst(v, DECIMAL, false, cnt)) + rest, 0) == Number(rest, v)
  {
    var low := LowFirst(v, DECIMAL, false, cnt);
    if v == 0 {
      assert Reverse(low) + rest == rest;
    } else {
      var d, next := DECIMAL.digits[v % 10], LowFirst(v / 10, DECIMAL, false, cnt + 1);
      assert low == [d] + next;
      assert low[1..] == next;
      assert Reverse(low) + rest == Reverse(next) + ([d] + rest);
      DigitsReadBack(v / 10, cnt + 1, [d] + rest);
      DecimalDigit(v % 10);
      assert ([d] + rest)[1..] == rest;
    }
  }

  lemma {:induction false} ReverseJoin(s: string, t: string)
    ensures Reverse(s + t) == Reverse(t) + Reverse(s)
  {
    if s == [] {
      assert s + t == t;
    } else {
      ReverseJoin(s[1..], t);
      assert (s + t)[1..] == s[1..] + t;
    }
  }

  lemma {:induction false} ReverseRepeat(c: char, n: nat)
    ensures Reverse(Repeat(c, n)) == Repeat(c, n)
  {
  }

  /** The digits in the buffer, highest first: zeros, then the digits of the value. */
  lemma DecimalBody(v: nat, c: Conversion) returns (k: nat)
    requires !c.group
    ensures Reverse(Body(v, DECIMAL, c)) == Repeat('0', k) + Reverse(LowFirst(v, DECIMAL, false, 0))
  {
    var low := LowFirst(v, DECIMAL, false, 0);
    var body := Body(v, DECIMAL, c);
    k := |body| - |low|;
    assert body == low + Repeat('0', k);
    ReverseJoin(low, Repeat('0', k));
    ReverseRepeat('0', k);
  }

  lemma MoreZeros(j: nat, k: nat, t: string)
    ensures Repeat('0', j) + (Repeat('0', k) + t) == Repeat('0', j + k) + t
  {
  }

  /** Zeros, digits and spaces after them read as the value. */
  lemma TailReadsBack(v: nat, k: nat, spaces: nat)
    ensures
      var tail := Repeat('0', k) + Reverse(LowFirst(v, DECIMAL, false, 0)) + Repeat(' ', spaces);
      Number(tail, 0) == v && Denotes(tail) == v
  {
    var digits := Reverse(LowFirst(v, DECIMAL, false, 0));
    var tail := Repeat('0', k) + digits + Repeat(' ', spaces);
    assert tail == Repeat('0', k) + (digits + Repeat(' ', spaces));
    LeadingZeros(k, digits + Repeat(' ', spaces));
    DigitsReadBack(v, 0, Repeat(' ', spaces));
    StopsAtSpaces(spaces, v);
    if k == 0 && v == 0 {
      assert tail == Repeat(' ', spaces) + "";
      SkipsSpaces(spaces, "");
    } else {
      FirstDigit(v, k);
      assert tail[0] == (Repeat('0', k) + digits)[0];
      assert SkipSpaces(tail) == tail;
    }
  }

  lemma FirstDigit(v: nat, k: nat)
    requires k > 0 || v > 0
    ensures var s := Repeat('0', k) + Reverse(LowFirst(v, DECIMAL, false, 0)); s != [] && IsDigit(s[0])
  {
    if k == 0 {
      LastIsDigit(v, 0);
    }
  }

  lemma {:induction false} LastIsDigit(v: nat, cnt: nat)
    requires v > 0
    ensures var s := LowFirst(v, DECIMAL, false, cnt); s != [] && IsDigit(s[|s| - 1])
  {
    DecimalDigit(v % 10);
    if v >= 10 {
      LastIsDigit(v / 10, cnt + 1);
    } else {
      assert LowFirst(v / 10, DECIMAL, false, cnt + 1) == [];
    }
  }

  /** atoi() of what %d writes is the number, whatever the width, the precision and the flags, without grouping. */
  lemma RoundTrip(n: int, c: Conversion)
    requires !c.group
    ensures Denotes(Rendered(if n < 0 then -n else n, true, n < 0, DECIMAL, c)) == n
  {
    var v := if n < 0 then -n else n;
    var left, zeros, right := Layout(v, n < 0, c);
    hide Rendered, LowFirst, Reverse, Number, Repeat;
    var tail := Repeat('0', zeros) + Reverse(LowFirst(v, DECIMAL, false, 0)) + Repeat(' ', right);
    TailReadsBack(v, zeros, right);
    SkipsSpaces(left, Sign(true, n < 0, c) + tail);
    SignReadsBack(n < 0, c, tail);
  }

  /** A decimal conversion is spaces, a sign, zeros, the digits, and spaces. */
  lemma Layout(v: nat, negative: bool, c: Conversion) returns (left: nat, zeros: nat, right: nat)
    requires !c.group
    ensures
      var tail := Repeat('0', zeros) + Reverse(LowFirst(v, DECIMAL, false, 0)) + Repeat(' ', right);
      Rendered(v, true, negative, DECIMAL, c) == Repeat(' ', left) + (Sign(true, negative, c) + tail)
  {
    hide Body, LowFirst, Reverse, Prefix, Sign, Repeat, Pad, When, IsBase;
    DecimalIsBase();
    NoPrefix(v, negative, c);
    var k := DecimalBody(v, c);
    var sign, digits := Sign(true, negative, c), Reverse(LowFirst(v, DECIMAL, false, 0));
    var pad := Pad(c, |Body(v, DECIMAL, c)| + |sign|);
    var j := When(c.zero, pad);
    left, zeros, right := When(!c.minus && !c.zero, pad), j + k, When(c.minus, pad);
    MoreZeros(j, k, digits);
    FivePieces(Repeat(' ', left), sign, Repeat('0', j), Repeat('0', k) + digits, Repeat(' ', right));
  }

  lemma DecimalIsBase()
    ensures IsBase(DECIMAL)
  {
  }

  lemma NoPrefix(v: nat, negative: bool, c: Conversion)
    ensures Sign(true, negative, c) + Prefix(v, DECIMAL, c) == Sign(true, negative, c)
  {
  }

  lemma FivePieces(p: string, q: string, r: string, s: string, t: string)
    ensures p + q + r + s + t == p + (q + ((r + s) + t))
  {
  }

  lemma SignReadsBack(negative: bool, c: Conversion, tail: string)
    requires Denotes(tail) == Number(tail, 0)
    ensures Denotes(Sign(true, negative, c) + tail) == if negative then -Number(tail, 0) else Number(tail, 0)
  {
    var sign := Sign(true, negative, c);
    assert sign != [] ==> (sign + tail)[1..] == tail;
    assert sign == [] ==> sign + tail == tail;
  }

  // ---------- Writing into a buffer ----------

  /** A buffer after as much of `text` as fits has been stored, with a null character behind it. */
  ghost predicate Stores(was: seq<char>, now: seq<char>, size: nat, text: string) {
    var n := if |text| < size then |text| else size - 1;
    && |now| == |was|
    && (forall i :: 0 <= i < |now| && size > 0 ==>
         now[i] == if i < n then text[i] else if i == n then 0 as char else was[i])
    && (size == 0 ==> now == was)
  }

  /** vsnprintf(): `text` goes through the output function one character at a time. */
  method Vsnprintf(buffer: array<char>, size: nat, text: string) returns (length: nat)
    requires size <= buffer.Length
    modifies buffer
    ensures length == |text| && Stores(old(buffer[..]), buffer[..], size, text)
  {
    var p, max := 0, if size > 0 then size - 1 else 0;
    length := 0;
    while length < |text|
      invariant length <= |text| && p == (if length < max then length else max) && p <= buffer.Length
      invariant forall i :: 0 <= i < p ==> buffer[i] == text[i]
      invariant forall i :: p <= i < buffer.Length ==> buffer[i] == old(buffer[i])
    {
      if length < max {
        buffer[p] := text[length];
        p := p + 1;
      }
      length := length + 1;
    }
    if size > 0 {
      buffer[p] := 0 as char;
    }
  }
}
