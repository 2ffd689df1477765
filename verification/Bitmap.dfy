/**
 The kernel's bitmap: bits packed 32 to a word, scanned first-fit.  Its abstract
 meaning is `bits`, a sequence of booleans.
 */
module Bitmaps {

  import opened Options

  const ELEM_BITS: nat := 32

  function ElemIdx(bitIdx: nat): nat {
    bitIdx / ELEM_BITS
  }

  function OneBit(amount: nat): bv32
    requires amount < ELEM_BITS
  {
    (1 as bv32) << amount
  }

  function BitMask(bitIdx: nat): bv32 {
    OneBit(bitIdx % ELEM_BITS)
  }

  function ElemCnt(bitCnt: nat): nat {
    (bitCnt + ELEM_BITS - 1) / ELEM_BITS
  }

  /** How many bytes those words take. */
  function ByteCnt(bitCnt: nat): nat {
    4 * ElemCnt(bitCnt)
  }

  function With(w: bv32, mask: bv32): bv32 {
    w | mask
  }

  function Without(w: bv32, mask: bv32): bv32 {
    w & !mask
  }

  function Masked(w: bv32, mask: bv32): bv32 {
    w & mask
  }

  predicate Bit(w: bv32, i: nat) {
    Masked(w, BitMask(i)) != 0
  }

  function SetBit(w: bv32, i: nat, value: bool): bv32 {
    if value then With(w, BitMask(i)) else Without(w, BitMask(i))
  }

  predicate TestBit(words: seq<bv32>, i: nat)
    requires ElemIdx(i) < |words|
  {
    Bit(words[ElemIdx(i)], i)
  }

  // ---------- Masks of different bits do not interfere ----------

  lemma AmountsDiffer(i: nat, j: nat)
    requires i < 32 && j < 32
    ensures i as bv32 == j as bv32 ==> i == j
  {
    AmountRoundTrip(i);
    AmountRoundTrip(j);
  }

  lemma AmountRoundTrip(i: nat)
    requires i < 32
    ensures (i as bv32) as int == i
  {
  }

  lemma WideIsWide(b: bv32)
    requires b >= 32
    ensures b as int >= 32
  {
    assert (b as int) as bv32 == b;
  }

  lemma AmountInRange(i: nat)
    requires i < 32
    ensures i as bv32 < 32
  {
    AmountRoundTrip(i);
    if i as bv32 >= 32 {
      WideIsWide(i as bv32);
    }
  }

  lemma ShiftsDisjoint(a: bv32, b: bv32)
    requires a < 32 && b < 32
    ensures 1 << a != 0 as bv32
    ensures a != b ==> ((1 as bv32) << a) & ((1 as bv32) << b) == 0
  {
  }

  lemma OneBitsDisjoint(a: nat, b: nat)
    requires a < ELEM_BITS && b < ELEM_BITS
    ensures OneBit(a) != 0
    ensures a != b ==> Masked(OneBit(a), OneBit(b)) == 0
  {
    AmountInRange(a);
    AmountInRange(b);
    AmountsDiffer(a, b);
    ShiftsDisjoint(a as bv32, b as bv32);
  }

  /** A mask is one bit, and two bits of one word never share a mask. */
  lemma MasksDisjoint(i: nat, j: nat)
    ensures BitMask(i) != 0
    ensures i % ELEM_BITS == j % ELEM_BITS ==> BitMask(i) == BitMask(j)
    ensures i % ELEM_BITS != j % ELEM_BITS ==> Masked(BitMask(i), BitMask(j)) == 0
  {
    hide OneBit, Masked;
    OneBitsDisjoint(i % ELEM_BITS, j % ELEM_BITS);
  }

  lemma WithSets(w: bv32, m: bv32)
    ensures Masked(With(w, m), m) == m
  {
  }

  lemma WithSpares(w: bv32, m: bv32, other: bv32)
    requires Masked(m, other) == 0
    ensures Masked(With(w, m), other) == Masked(w, other)
  {
  }

  lemma WithoutClears(w: bv32, m: bv32)
    ensures Masked(Without(w, m), m) == 0
  {
  }

  lemma WithoutSpares(w: bv32, m: bv32, other: bv32)
    requires Masked(m, other) == 0
    ensures Masked(Without(w, m), other) == Masked(w, other)
  {
  }

  lemma SetBitThenBit(w: bv32, i: nat, value: bool, k: nat)
    ensures Bit(SetBit(w, i, value), k) == if i % ELEM_BITS == k % ELEM_BITS then value else Bit(w, k)
  {
    hide BitMask, Masked, With, Without;
    MasksDisjoint(i, k);
    if i % ELEM_BITS == k % ELEM_BITS {
      WithSets(w, BitMask(i));
      WithoutClears(w, BitMask(i));
    } else {
      WithSpares(w, BitMask(i), BitMask(k));
      WithoutSpares(w, BitMask(i), BitMask(k));
    }
  }

  /** Replacing one word by one with bit `i` changed leaves every other bit alone. */
  lemma WordUpdate(words: seq<bv32>, i: nat, value: bool, k: nat)
    requires ElemIdx(i) < |words| && ElemIdx(k) < |words|
    ensures TestBit(words[ElemIdx(i) := SetBit(words[ElemIdx(i)], i, value)], k) ==
      if k == i then value else TestBit(words, k)
  {
    if ElemIdx(i) == ElemIdx(k) {
      SetBitThenBit(words[ElemIdx(i)], i, value, k);
      assert i % ELEM_BITS == k % ELEM_BITS ==> i == k;
    }
  }

  // ---------- Runs of equal bits ----------

  /** `cnt` bits from `start` all equal `value`. */
  ghost predicate AllAre(bits: seq<bool>, start: nat, cnt: nat, value: bool) {
    start + cnt <= |bits| && forall i :: start <= i < start + cnt ==> bits[i] == value
  }

  function WithRun(bits: seq<bool>, start: nat, cnt: nat, value: bool): (r: seq<bool>)
    requires start + cnt <= |bits|
    ensures |r| == |bits|
    ensures forall i :: 0 <= i < |bits| ==> r[i] == if start <= i < start + cnt then value else bits[i]
  {
    bits[..start] + seq(cnt, _ => value) + bits[start + cnt..]
  }

  /** `r` is the lowest start, at or after `start`, of a fitting run; None if there is no such run. */
  ghost predicate IsFirstFit(bits: seq<bool>, start: nat, cnt: nat, value: bool, r: Option<nat>) {
    match r
    case None => forall i :: start <= i ==> !AllAre(bits, i, cnt, value)
    case Some(k) =>
      && start <= k && AllAre(bits, k, cnt, value)
      && forall i :: start <= i < k ==> !AllAre(bits, i, cnt, value)
  }

  class Bitmap {

    const bitCnt: nat
    const words: array<bv32>

    ghost var bits: seq<bool>

    ghost predicate Valid()
      reads this, words
    {
      && words.Length == ElemCnt(bitCnt)
      && |bits| == bitCnt
      && forall i {:trigger TestBit(words[..], i)} :: 0 <= i < bitCnt ==> bits[i] == TestBit(words[..], i)
    }

    constructor (cnt: nat)
      ensures Valid() && fresh(words)
      ensures bitCnt == cnt && bits == seq(cnt, _ => false)
    {
      bitCnt := cnt;
      words := new bv32[ElemCnt(cnt)](_ => 0);
      bits := seq(cnt, _ => false);
      new;
      assert forall i :: 0 <= i < |words[..]| ==> words[..][i] == 0;
    }

    method Set(idx: nat, value: bool)
      requires Valid() && idx < bitCnt
      modifies this`bits, words
      ensures Valid()
      ensures bits == old(bits)[idx := value]
    {
      ghost var before := words[..];
      var e := ElemIdx(idx);
      words[e] := SetBit(words[e], idx, value);
      bits := bits[idx := value];
      assert words[..] == before[e := words[e]];
      forall k | 0 <= k < bitCnt
        ensures bits[k] == TestBit(words[..], k)
      {
        assert old(bits)[k] == TestBit(before, k);
        WordUpdate(before, idx, value, k);
      }
    }

    method Test(idx: nat) returns (r: bool)
      requires Valid() && idx < bitCnt
      ensures r == bits[idx]
    {
      r := Bit(words[ElemIdx(idx)], idx);
      assert r == TestBit(words[..], idx);
    }

    method SetMultiple(start: nat, cnt: nat, value: bool)
      requires Valid() && start + cnt <= bitCnt
      modifies this`bits, words
      ensures Valid()
      ensures bits == WithRun(old(bits), start, cnt, value)
    {
      for i := 0 to cnt
        invariant Valid()
        invariant bits == WithRun(old(bits), start, i, value)
      {
        Set(start + i, value);
      }
    }

    method Contains(start: nat, cnt: nat, value: bool) returns (r: bool)
      requires Valid() && start + cnt <= bitCnt
      ensures r <==> !AllAre(bits, start, cnt, !value)
    {
      for i := 0 to cnt
        invariant AllAre(bits, start, i, !value)
      {
        var b := Test(start + i);
        if b == value {
          return true;
        }
      }
      r := false;
    }

    method Scan(start: nat, cnt: nat, value: bool) returns (r: Option<nat>)
      requires Valid() && start <= bitCnt
      ensures IsFirstFit(bits, start, cnt, value, r)
    {
      if cnt <= bitCnt {
        var last := bitCnt - cnt;
        var i := start;
        while i <= last
          invariant start <= i
          invariant forall j :: start <= j < i ==> !AllAre(bits, j, cnt, value)
        {
          var other := Contains(i, cnt, !value);
          if !other {
            return Some(i);
          }
          i := i + 1;
        }
      }
      r := None;
    }

    /** Takes the lowest fitting run and flips exactly that run. */
    method ScanAndFlip(start: nat, cnt: nat, value: bool) returns (r: Option<nat>)
      requires Valid() && start <= bitCnt
      modifies this`bits, words
      ensures Valid()
      ensures IsFirstFit(old(bits), start, cnt, value, r)
      ensures bits == match r case None => old(bits) case Some(k) => WithRun(old(bits), k, cnt, !value)
    {
      r := Scan(start, cnt, value);
      if r.Some? {
        SetMultiple(r.value, cnt, !value);
      }
    }
  }
}
