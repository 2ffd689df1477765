/**
 What the integer conversions write, said by what a reader makes of it: signs, prefixes and
 the sides of padding by their characters, digits by their values, commas by their places.
 */
module NumberLaws {

  import opened Options
  import opened NumberText

  // ---------- Numerals ----------

  /** What a digit stands for, letters being in one case only; -1 for any other character. */
  function DigitValue(ch: char, upper: bool): int {
    if '0' <= ch <= '9' then (ch - '0') as int
    else if !upper && 'a' <= ch <= 'f' then 10 + (ch - 'a') as int
    else if upper && 'A' <= ch <= 'F' then 10 + (ch - 'A') as int
    else -1
  }

  /** The number that digits stand for, highest first, with commas between them ignored. */
  function ReadBack(s: string, radix: nat, upper: bool): int {
    if s == "" then 0
    else
      var front, last := s[..|s| - 1], s[|s| - 1];
      if last == ',' then ReadBack(front, radix, upper)
      else ReadBack(front, radix, upper) * radix + DigitValue(last, upper)
  }

  /** Counted from the right, there is a comma after every `group` digits; none if `group` is 0. */
  predicate CommaPlace(p: nat, group: nat) {
    group > 0 && p % (group + 1) == group
  }

  /** A comma where one belongs, and elsewhere a digit. */
  predicate RightAt(ch: char, p: nat, radix: nat, upper: bool, group: nat) {
    (ch == ',' <==> CommaPlace(p, group)) && (ch == ',' || 0 <= DigitValue(ch, upper) < radix)
  }

  /** `s` is the numeral of `value`, without leading zeros; 0 has none. */
  ghost predicate Numeral(s: string, value: nat, radix: nat, upper: bool, group: nat) {
    && (s == "" <==> value == 0)
    && (s != "" ==> s[0] != '0' && s[0] != ',')
    && (forall i :: 0 <= i < |s| ==> RightAt(s[i], |s| - 1 - i, radix, upper, group))
    && ReadBack(s, radix, upper) == value
  }

  function RadixOf(b: Base): nat {
    if b == OCTAL then 8 else if b == DECIMAL then 10 else 16
  }

  predicate Upper(b: Base) {
    b == BIG_HEX
  }

  function GroupOf(b: Base, group: bool): nat {
    if !group then 0 else if b == OCTAL || b == DECIMAL then 3 else 4
  }

  /** The lowest digit. */
  function Digit(v: nat, b: Base): char
    requires IsBase(b)
  {
    b.digits[v % b.base]
  }

  lemma DigitIs(v: nat, b: Base)
    requires IsBase(b)
    ensures DigitValue(Digit(v, b), Upper(b)) == v % RadixOf(b) && Digit(v, b) != ','
    ensures v % RadixOf(b) > 0 ==> Digit(v, b) != '0'
  {
    hide IsBase;
    BaseIs(b);
    DigitText(b, v % b.base);
  }

  lemma DigitText(b: Base, d: nat)
    requires IsBase(b) && d < RadixOf(b)
    ensures d < |b.digits| && DigitValue(b.digits[d], Upper(b)) == d && b.digits[d] != ','
    ensures d > 0 ==> b.digits[d] != '0'
  {
  }

  lemma BaseIs(b: Base)
    requires IsBase(b)
    ensures b.base == RadixOf(b) && (b.base == 8 || b.base == 10 || b.base == 16)
    ensures b.group == GroupOf(b, true) && (b.group == 3 || b.group == 4)
    ensures b.base == 8 <==> b == OCTAL
  {
  }

  /** A comma comes after every full group of digits. */
  predicate StartsGroup(b: Base, group: bool, cnt: nat) {
    GroupOf(b, group) > 0 && cnt > 0 && cnt % GroupOf(b, group) == 0
  }

  lemma ChunkIs(v: nat, b: Base, group: bool, cnt: nat)
    requires IsBase(b)
    ensures Chunk(v, b, group, cnt) == (if StartsGroup(b, group, cnt) then "," else "") + [Digit(v, b)]
  {
    BaseIs(b);
    hide IsBase;
  }

  /** The lowest digit and what it leaves of the value. */
  lemma Lowest(v: nat, b: Base)
    requires IsBase(b) && v > 0
    ensures
      var rest, d := v / b.base, DigitValue(Digit(v, b), Upper(b));
      && rest < v && 0 <= d < RadixOf(b) && rest * RadixOf(b) + d == v
      && Digit(v, b) != ',' && (rest == 0 ==> Digit(v, b) != '0')
  {
    hide IsBase, Digit, DigitValue, Upper, GroupOf;
    BaseIs(b);
    DigitIs(v, b);
    Split(v, RadixOf(b));
  }

  lemma Split(v: nat, r: nat)
    requires (r == 8 || r == 10 || r == 16) && v > 0
    ensures v / r < v && v / r * r + v % r == v && (v / r == 0 ==> v % r == v)
  {
    if r == 8 {
      assert v / 8 < v && v / 8 * 8 + v % 8 == v;
    } else if r == 10 {
      assert v / 10 < v && v / 10 * 10 + v % 10 == v;
    } else {
      assert v / 16 < v && v / 16 * 16 + v % 16 == v;
    }
  }

  lemma Higher(v: nat, b: Base, group: bool, cnt: nat) returns (rest: nat, d: char)
    requires IsBase(b) && v > 0
    ensures rest < v && rest * RadixOf(b) + DigitValue(d, Upper(b)) == v && 0 <= DigitValue(d, Upper(b)) < RadixOf(b)
    ensures d != ',' && (rest == 0 ==> d != '0')
    ensures LowFirst(v, b, group, cnt) ==
      (if StartsGroup(b, group, cnt) then "," else "") + [d] + LowFirst(rest, b, group, cnt + 1)
  {
    hide IsBase, LowFirst, Chunk, Digit, RadixOf, StartsGroup, DigitValue, Upper;
    BaseIs(b);
    Lowest(v, b);
    LowStep(v, b, group, cnt);
    ChunkIs(v, b, group, cnt);
    rest, d := v / b.base, Digit(v, b);
  }

  lemma {:induction false} NumeralReadsBack(v: nat, b: Base, group: bool, cnt: nat)
    requires IsBase(b)
    ensures ReadBack(Reverse(LowFirst(v, b, group, cnt)), RadixOf(b), Upper(b)) == v
    decreases v
  {
    hide IsBase, Digit, RadixOf, DigitValue, Upper, StartsGroup;
    if v > 0 {
      hide LowFirst, Reverse, ReadBack;
      var rest, d := Higher(v, b, group, cnt);
      var comma := if StartsGroup(b, group, cnt) then "," else "";
      var next := LowFirst(rest, b, group, cnt + 1);
      NumeralReadsBack(rest, b, group, cnt + 1);
      ReverseThree(comma, d, next);
      ReadDigit(Reverse(next), d, comma, RadixOf(b), Upper(b));
    }
  }

  lemma ReverseThree(comma: string, d: char, next: string)
    requires comma == "" || comma == ","
    ensures Reverse(comma + [d] + next) == Reverse(next) + [d] + comma
  {
    ReverseJoin(comma + [d], next);
    assert Reverse(comma + [d]) == [d] + comma;
  }

  lemma ReadDigit(s: string, d: char, comma: string, radix: nat, upper: bool)
    requires d != ',' && (comma == "" || comma == ",")
    ensures ReadBack(s + [d] + comma, radix, upper) == ReadBack(s, radix, upper) * radix + DigitValue(d, upper)
  {
    var t := s + [d];
    assert t[..|t| - 1] == s;
    if comma == "" {
      assert t + comma == t;
    } else {
      assert (t + comma)[..|t + comma| - 1] == t;
    }
  }

  /** How many characters come before a digit that follows `cnt` others. */
  function Before(cnt: nat, g: nat): nat {
    if g == 0 || cnt == 0 then cnt else cnt + (cnt - 1) / g
  }

  lemma PlaceOfDigit(cnt: nat, g: nat)
    requires g == 0 || g == 3 || g == 4
    ensures
      var p, comma := Before(cnt, g), g > 0 && cnt > 0 && cnt % g == 0;
      && Before(cnt + 1, g) == p + (if comma then 2 else 1)
      && (CommaPlace(p, g) <==> comma)
      && (comma ==> !CommaPlace(p + 1, g))
  {
    if g == 3 {
      var q, r := cnt / 3, cnt % 3;
      assert cnt == 3 * q + r;
    } else if g == 4 {
      var q, r := cnt / 4, cnt % 4;
      assert cnt == 4 * q + r;
    }
  }

  /** Every character is a comma or a digit, by its place. */
  lemma {:induction false} NumeralPlaces(v: nat, b: Base, group: bool, cnt: nat, i: nat)
    requires IsBase(b) && i < |LowFirst(v, b, group, cnt)|
    ensures
      var g := GroupOf(b, group);
      RightAt(LowFirst(v, b, group, cnt)[i], Before(cnt, g) + i, RadixOf(b), Upper(b), g)
    decreases v
  {
    hide IsBase, LowFirst, RadixOf, DigitValue, Upper, CommaPlace, Before, GroupOf, RightAt, StartsGroup;
    NoDigits(b, group, cnt);
    var rest, low := FirstRight(v, b, group, cnt);
    var n := if StartsGroup(b, group, cnt) then 2 else 1;
    if i >= n {
      NumeralPlaces(rest, b, group, cnt + 1, i - n);
    }
  }

  lemma NoDigits(b: Base, group: bool, cnt: nat)
    requires IsBase(b)
    ensures LowFirst(0, b, group, cnt) == ""
  {
  }

  /** The characters written for the lowest digit. */
  lemma FirstRight(v: nat, b: Base, group: bool, cnt: nat) returns (rest: nat, low: string)
    requires IsBase(b) && v > 0
    ensures
      var g := GroupOf(b, group);
      && rest < v && LowFirst(v, b, group, cnt) == low + LowFirst(rest, b, group, cnt + 1)
      && |low| == (if StartsGroup(b, group, cnt) then 2 else 1)
      && RightAt(low[0], Before(cnt, g), RadixOf(b), Upper(b), g)
      && (|low| == 2 ==> RightAt(low[1], Before(cnt, g) + 1, RadixOf(b), Upper(b), g))
      && Before(cnt + 1, g) == Before(cnt, g) + |low|
  {
    hide IsBase, LowFirst, RadixOf, DigitValue, Upper, CommaPlace, Before, GroupOf, RightAt;
    GroupIs(b, group);
    var d;
    rest, d := Higher(v, b, group, cnt);
    ChunkRight(cnt, GroupOf(b, group), d, RadixOf(b), Upper(b));
    low := (if StartsGroup(b, group, cnt) then "," else "") + [d];
  }

  lemma ChunkRight(cnt: nat, g: nat, d: char, radix: nat, upper: bool)
    requires (g == 0 || g == 3 || g == 4) && d != ',' && 0 <= DigitValue(d, upper) < radix
    ensures
      var p, comma := Before(cnt, g), g > 0 && cnt > 0 && cnt % g == 0;
      && (comma ==> RightAt(',', p, radix, upper, g) && RightAt(d, p + 1, radix, upper, g))
      && (!comma ==> RightAt(d, p, radix, upper, g))
      && Before(cnt + 1, g) == p + (if comma then 2 else 1)
  {
    hide Before, CommaPlace, DigitValue;
    PlaceOfDigit(cnt, g);
  }

  lemma GroupIs(b: Base, group: bool)
    ensures GroupOf(b, group) == 0 || GroupOf(b, group) == 3 || GroupOf(b, group) == 4
  {
  }

  lemma {:induction false} NoLeadingZero(v: nat, b: Base, group: bool, cnt: nat)
    requires IsBase(b) && v > 0
    ensures var s := LowFirst(v, b, group, cnt); s != "" && s[|s| - 1] != '0' && s[|s| - 1] != ','
    decreases v
  {
    hide IsBase, Digit, RadixOf, DigitValue, Upper, StartsGroup;
    var rest, d := Higher(v, b, group, cnt);
    if rest > 0 {
      hide LowFirst;
      NoLeadingZero(rest, b, group, cnt + 1);
    } else {
      assert LowFirst(rest, b, group, cnt + 1) == "";
    }
  }

  /** The digits of a conversion, highest first, are the numeral of its value. */
  lemma DigitsAreNumeral(value: nat, b: Base, group: bool)
    requires IsBase(b)
    ensures
      var s := Reverse(LowFirst(value, b, group, 0));
      Numeral(s, value, RadixOf(b), Upper(b), GroupOf(b, group))
  {
    hide IsBase, Reverse, RadixOf, Upper, GroupOf, RightAt, ReadBack;
    var low := LowFirst(value, b, group, 0);
    var s := Reverse(low);
    NumeralReadsBack(value, b, group, 0);
    if value > 0 {
      NoLeadingZero(value, b, group, 0);
    }
    forall i | 0 <= i < |s|
      ensures RightAt(s[i], |s| - 1 - i, RadixOf(b), Upper(b), GroupOf(b, group))
    {
      NumeralPlaces(value, b, group, 0, |s| - 1 - i);
    }
  }

  // ---------- Without padding ----------

  /** Zeros before the numeral: up to the precision, and one under the # flag in base 8 if there is none. */
  function ZeroCount(digits: nat, b: Base, c: Conversion): nat {
    var wanted := if c.precision.None? then 1 else if c.precision.value > 63 then 63 else c.precision.value;
    if digits < wanted then wanted - digits else if c.pound && b == OCTAL then 1 else 0
  }

  /** The body in the buffer is zeros and the numeral. */
  lemma BodyIs(value: nat, b: Base, c: Conversion)
    requires IsBase(b)
    ensures
      var s := Reverse(LowFirst(value, b, c.group, 0));
      Reverse(Body(value, b, c)) == Repeat('0', ZeroCount(|s|, b, c)) + s
  {
    hide IsBase, Reverse, RadixOf, ZeroCount, Filled, OctalZero;
    var low := LowFirst(value, b, c.group, 0);
    var k := ZeroCount(|low|, b, c);
    BaseIs(b);
    if value > 0 {
      NoLeadingZero(value, b, c.group, 0);
    }
    hide LowFirst;
    ZerosAre(low, b, c);
    hide Body;
    ReverseJoin(low, Repeat('0', k));
    ReverseRepeat('0', k);
  }

  lemma ZerosAre(low: string, b: Base, c: Conversion)
    requires (low != "" ==> low[|low| - 1] != '0') && (b.base == 8 <==> b == OCTAL)
    ensures OctalZero(Filled(low, Precision(c)), b, c) == low + Repeat('0', ZeroCount(|low|, b, c))
  {
    var filled := Filled(low, Precision(c));
    assert |filled| > |low| ==> filled[|filled| - 1] == '0';
    assert low + "" == low;
    assert low + "0" == low + Repeat('0', 1);
  }

  function SignText(isSigned: bool, negative: bool, c: Conversion): string {
    if !isSigned then ""
    else if c.plus then (if negative then "-" else "+")
    else if c.space then (if negative then "-" else " ")
    else if negative then "-" else ""
  }

  function PrefixText(value: nat, b: Base, c: Conversion): string {
    if !c.pound || value == 0 then "" else if b == HEX then "0x" else if b == BIG_HEX then "0X" else ""
  }

  lemma HeadIs(value: nat, isSigned: bool, negative: bool, b: Base, c: Conversion)
    requires IsBase(b)
    ensures Sign(isSigned, negative, c) == SignText(isSigned, negative, c)
    ensures Prefix(value, b, c) == PrefixText(value, b, c)
  {
  }

  /** A sign, a prefix, zeros, and the numeral. */
  ghost predicate Bare(out: string, value: nat, isSigned: bool, negative: bool, b: Base, c: Conversion) {
    exists s: string ::
      && Numeral(s, value, RadixOf(b), Upper(b), GroupOf(b, c.group))
      && out == SignText(isSigned, negative, c) + PrefixText(value, b, c) + Repeat('0', ZeroCount(|s|, b, c)) + s
  }

  /** What is written when the field is not wider than the number. */
  lemma WithoutPadding(value: nat, isSigned: bool, negative: bool, b: Base, c: Conversion)
    requires IsBase(b)
    ensures Bare(Rendered(value, isSigned, negative, b, c.(width := 0)), value, isSigned, negative, b, c)
  {
    hide Body, LowFirst, Reverse, IsBase, Numeral, RadixOf, GroupOf, ZeroCount, Repeat, Sign, Prefix, Upper, SignText,
         PrefixText, Rendered;
    var s := Reverse(LowFirst(value, b, c.group, 0));
    DigitsAreNumeral(value, b, c.group);
    BodyIs(value, b, c);
    HeadIs(value, isSigned, negative, b, c);
    Pieces(value, isSigned, negative, b, c);
    var head, zeros := SignText(isSigned, negative, c) + PrefixText(value, b, c), Repeat('0', ZeroCount(|s|, b, c));
    assert head + (zeros + s) == head + zeros + s;
  }

  // ---------- Padding ----------

  /** The spaces or zeros that fill up a field. */
  ghost function Missing(value: nat, isSigned: bool, negative: bool, b: Base, c: Conversion): nat
    requires IsBase(b)
  {
    var n := |Rendered(value, isSigned, negative, b, c.(width := 0))|;
    if c.width > n then c.width - n else 0
  }

  /** Spaces go to the left unless a flag says otherwise, and to the right for the - flag. */
  lemma SpacesAround(value: nat, isSigned: bool, negative: bool, b: Base, c: Conversion)
    requires IsBase(b) && !c.zero
    ensures
      var spaces := Repeat(' ', Missing(value, isSigned, negative, b, c));
      var bare := Rendered(value, isSigned, negative, b, c.(width := 0));
      Rendered(value, isSigned, negative, b, c) == if c.minus then bare + spaces else spaces + bare
  {
    hide Rendered, IsBase, Sign, Prefix, Body, Reverse, Repeat, Missing;
    Pieces(value, isSigned, negative, b, c);
  }

  /** Zeros go between the sign or prefix and the digits; if the - flag is left too, as many spaces follow. */
  lemma ZerosInside(value: nat, isSigned: bool, negative: bool, b: Base, c: Conversion) returns (digits: string)
    requires IsBase(b) && c.zero
    ensures
      var head := SignText(isSigned, negative, c) + PrefixText(value, b, c);
      var pad := Missing(value, isSigned, negative, b, c);
      && Rendered(value, isSigned, negative, b, c.(width := 0)) == head + digits
      && Rendered(value, isSigned, negative, b, c) ==
         head + Repeat('0', pad) + digits + if c.minus then Repeat(' ', pad) else ""
  {
    hide Rendered, IsBase, Sign, Prefix, Body, Reverse, Repeat, Missing, SignText, PrefixText;
    HeadIs(value, isSigned, negative, b, c);
    Pieces(value, isSigned, negative, b, c);
    digits := Reverse(Body(value, b, c));
  }

  lemma Pieces(value: nat, isSigned: bool, negative: bool, b: Base, c: Conversion)
    requires IsBase(b)
    ensures
      var head, digits := Sign(isSigned, negative, c) + Prefix(value, b, c), Reverse(Body(value, b, c));
      var pad, out := Missing(value, isSigned, negative, b, c), Rendered(value, isSigned, negative, b, c);
      && Rendered(value, isSigned, negative, b, c.(width := 0)) == head + digits
      && (!c.minus && !c.zero ==> out == Repeat(' ', pad) + (head + digits))
      && (c.minus && !c.zero ==> out == (head + digits) + Repeat(' ', pad))
      && (!c.minus && c.zero ==> out == head + Repeat('0', pad) + digits + "")
      && (c.minus && c.zero ==> out == head + Repeat('0', pad) + digits + Repeat(' ', pad))
  {
    hide IsBase, Sign, Prefix, Body, Reverse, Repeat;
    SameParts(value, isSigned, negative, b, c);
    NoneRepeated();
    var head, digits := Sign(isSigned, negative, c) + Prefix(value, b, c), Reverse(Body(value, b, c));
    JoinNothing(head, digits);
    var pad := Missing(value, isSigned, negative, b, c);
    JoinSpaces(head, digits, Repeat(' ', pad));
    JoinSpaces(head, Repeat('0', pad), digits);
  }

  lemma SameParts(value: nat, isSigned: bool, negative: bool, b: Base, c: Conversion)
    requires IsBase(b)
    ensures Sign(isSigned, negative, c.(width := 0)) == Sign(isSigned, negative, c)
    ensures Prefix(value, b, c.(width := 0)) == Prefix(value, b, c)
    ensures Body(value, b, c.(width := 0)) == Body(value, b, c)
  {
    hide IsBase, LowFirst, Filled, OctalZero;
    assert OctalZero(Filled(LowFirst(value, b, c.group, 0), Precision(c)), b, c.(width := 0)) ==
      OctalZero(Filled(LowFirst(value, b, c.group, 0), Precision(c)), b, c) by {
      SameOctalZero(Filled(LowFirst(value, b, c.group, 0), Precision(c)), b, c);
    }
  }

  lemma SameOctalZero(s: string, b: Base, c: Conversion)
    ensures OctalZero(s, b, c.(width := 0)) == OctalZero(s, b, c)
  {
  }

  lemma NoneRepeated()
    ensures Repeat(' ', 0) == "" && Repeat('0', 0) == ""
  {
  }

  lemma JoinNothing(head: string, digits: string)
    ensures "" + head + "" + digits + "" == head + digits
  {
  }

  /** The ways in which some of the five pieces can be empty. */
  lemma JoinSpaces(a: string, b: string, c: string)
    ensures "" + a + "" + b + c == a + b + c
    ensures c + a + "" + b + "" == c + (a + b)
    ensures "" + a + b + c == a + b + c
    ensures a + b + c + "" == a + b + c
  {
  }

  /** How flags and numbers override each other when a conversion is parsed. */
  lemma SettledIs(minus: bool, plus: bool, space: bool, pound: bool, zero: bool, group: bool, width: int,
                  precision: int)
    ensures
      var c := Settled(minus, plus, space, pound, zero, group, width, precision);
      && (c.minus <==> minus || width < 0) && (c.plus <==> plus) && (c.space <==> space && !plus)
      && (c.zero <==> zero && !minus && precision < 0) && (c.pound <==> pound) && (c.group <==> group)
      && (c.width == width || c.width == -width)
      && (c.precision == None <==> precision < 0) && (c.precision.Some? ==> c.precision.value == precision)
  {
  }

  // ---------- atoi() ----------

  predicate Blank(c: char) {
    c as int in {9, 10, 11, 12, 13, 32}
  }

  predicate AllBlank(s: string) {
    forall i :: 0 <= i < |s| ==> Blank(s[i])
  }

  predicate AllDigits(s: string) {
    forall i :: 0 <= i < |s| ==> '0' <= s[i] <= '9'
  }

  /** White space, a sign or none, digits, and whatever does not go on with them. */
  predicate MadeOf(s: string, blanks: string, sign: string, digits: string, rest: string) {
    && s == blanks + sign + digits + rest
    && AllBlank(blanks) && (sign == "" || sign == "+" || sign == "-") && AllDigits(digits)
    && (rest != "" ==> !('0' <= rest[0] <= '9'))
    && (sign + digits == "" && rest != "" ==> !Blank(rest[0]) && rest[0] != '+' && rest[0] != '-')
  }

  /** What a string denotes: white space, a sign, and decimal digits, whatever follows them. */
  lemma DenotesIs(s: string, blanks: string, sign: string, digits: string, rest: string)
    requires MadeOf(s, blanks, sign, digits, rest)
    ensures Denotes(s) == if sign == "-" then -ReadBack(digits, 10, false) else ReadBack(digits, 10, false)
  {
    hide ReadBack, SkipSpaces, Signed, IsSpace, Blank, AllBlank, AllDigits;
    Behind(sign, digits, rest);
    SkipsBlanks(blanks, sign + digits + rest);
    assert s == blanks + (sign + digits + rest);
    SignedIs(sign, digits, rest);
  }

  lemma Behind(sign: string, digits: string, rest: string)
    requires (sign == "" || sign == "+" || sign == "-") && AllDigits(digits)
    requires sign + digits == "" && rest != "" ==> !Blank(rest[0])
    ensures var t := sign + digits + rest; t != "" ==> !IsSpace(t[0])
  {
    var t := sign + digits + rest;
    if sign != "" {
      assert t[0] == sign[0];
    } else if digits != "" {
      assert t[0] == digits[0];
    } else if rest != "" {
      assert t[0] == rest[0];
      BlankIsSpace(rest[0]);
    }
  }

  lemma SignedIs(sign: string, digits: string, rest: string)
    requires (sign == "" || sign == "+" || sign == "-") && AllDigits(digits)
    requires rest != "" ==> !('0' <= rest[0] <= '9')
    requires sign + digits == "" && rest != "" ==> rest[0] != '+' && rest[0] != '-'
    ensures Signed(sign + digits + rest) ==
      if sign == "-" then -ReadBack(digits, 10, false) else ReadBack(digits, 10, false)
  {
    hide Number, ReadBack;
    NumberIs(digits, rest);
    var t := sign + digits + rest;
    if sign == "" {
      assert t == digits + rest;
      assert t != "" ==> t[0] == if digits != "" then digits[0] else rest[0];
    } else {
      assert t[0] == sign[0] && t[1..] == digits + rest;
    }
  }

  lemma {:induction false} SkipsBlanks(blanks: string, t: string)
    requires AllBlank(blanks) && (t != "" ==> !IsSpace(t[0]))
    ensures SkipSpaces(blanks + t) == t
  {
    if blanks == "" {
      assert blanks + t == t;
    } else {
      SkipsBlanks(blanks[1..], t);
      assert (blanks + t)[1..] == blanks[1..] + t;
      assert Blank(blanks[0]);
      BlankIsSpace(blanks[0]);
    }
  }

  lemma BlankIsSpace(c: char)
    ensures Blank(c) <==> IsSpace(c)
  {
  }

  lemma NumberIs(digits: string, rest: string)
    requires AllDigits(digits) && (rest != "" ==> !('0' <= rest[0] <= '9'))
    ensures Number(digits + rest, 0) == ReadBack(digits, 10, false)
  {
    NumberFrom(digits, rest, 0);
    assert digits[0..] == digits && digits[..0] == "";
  }

  lemma {:induction false} NumberFrom(digits: string, rest: string, i: nat)
    requires AllDigits(digits) && (rest != "" ==> !('0' <= rest[0] <= '9')) && i <= |digits|
    ensures Number(digits[i..] + rest, ReadBack(digits[..i], 10, false)) == ReadBack(digits, 10, false)
    decreases |digits| - i
  {
    if i == |digits| {
      assert digits[i..] + rest == rest && digits[..i] == digits;
    } else {
      assert '0' <= digits[i] <= '9';
      hide AllDigits;
      NumberFrom(digits, rest, i + 1);
      assert (digits[i..] + rest)[1..] == digits[i + 1..] + rest && (digits[i..] + rest)[0] == digits[i];
      assert digits[..i + 1][..i] == digits[..i] && digits[..i + 1][i] == digits[i];
    }
  }

  /** Every string is made so. */
  lemma EveryStringIsMadeOf(s: string) returns (blanks: string, sign: string, digits: string, rest: string)
    ensures MadeOf(s, blanks, sign, digits, rest)
  {
    var i := BlanksEnd(s);
    var j := if i < |s| && (s[i] == '+' || s[i] == '-') then i + 1 else i;
    var k := DigitsEnd(s, j);
    blanks, sign, digits, rest := s[..i], s[i..j], s[j..k], s[k..];
    hide Blank, AllBlank, AllDigits;
    FourParts(s, i, j, k);
  }

  lemma FourParts(s: string, i: nat, j: nat, k: nat)
    requires i <= j <= k <= |s|
    ensures s == s[..i] + s[i..j] + s[j..k] + s[k..]
  {
  }

  lemma {:induction false} BlanksEnd(s: string) returns (i: nat)
    ensures i <= |s| && AllBlank(s[..i]) && (i < |s| ==> !Blank(s[i]))
  {
    if s == "" || !Blank(s[0]) {
      i := 0;
    } else {
      var j := BlanksEnd(s[1..]);
      i := j + 1;
      assert s[..i] == [s[0]] + s[1..][..j];
    }
  }

  lemma {:induction false} DigitsEnd(s: string, j: nat) returns (k: nat)
    requires j <= |s|
    ensures j <= k <= |s| && AllDigits(s[j..k]) && (k < |s| ==> !('0' <= s[k] <= '9'))
    decreases |s| - j
  {
    if j == |s| || !('0' <= s[j] <= '9') {
      k := j;
    } else {
      k := DigitsEnd(s, j + 1);
      assert s[j..k] == [s[j]] + s[j + 1..k];
    }
  }
}
