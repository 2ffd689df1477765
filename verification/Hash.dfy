/**
 The hash table: chains in a number of buckets that is a power of 2 and follows the
 number of elements.
 */
module Hashes {

  import opened Options
  import opened Bits

  /** An element is known by its address; `hash` and `less` look at what it holds. */
  type Elem = int
  type HashFn = Elem -> nat
  type Less = (Elem, Elem) -> bool

  predicate Equal(less: Less, a: Elem, b: Elem) {
    !less(a, b) && !less(b, a)
  }

  /** `less` is a strict weak order, and equal elements have equal hashes. */
  ghost predicate Suitable(hash: HashFn, less: Less) {
    && (forall a :: Equal(less, a, a))
    && (forall a, b, c :: Equal(less, a, b) && Equal(less, b, c) ==> Equal(less, a, c))
    && (forall a, b :: Equal(less, a, b) ==> hash(a) == hash(b))
  }

  type Buckets = seq<seq<Elem>>

  /** find_bucket() */
  function Index(hash: HashFn, e: Elem, cnt: nat): nat {
    if cnt == 0 then 0 else And(hash(e), cnt - 1)
  }

  ghost function Flat(bs: Buckets): multiset<Elem> {
    if bs == [] then multiset{} else multiset(bs[0]) + Flat(bs[1..])
  }

  lemma {:induction false} FlatIn(bs: Buckets, e: Elem)
    ensures e in Flat(bs) <==> exists i :: 0 <= i < |bs| && e in bs[i]
  {
    if bs != [] {
      FlatIn(bs[1..], e);
      assert forall i :: 0 < i < |bs| ==> bs[i] == bs[1..][i - 1];
      assert e in multiset(bs[0]) <==> e in bs[0];
    }
  }

  lemma {:induction false} FlatUpdate(bs: Buckets, i: nat, b: seq<Elem>)
    requires i < |bs|
    ensures Flat(bs[i := b]) + multiset(bs[i]) == Flat(bs) + multiset(b)
  {
    if i > 0 {
      FlatUpdate(bs[1..], i - 1, b);
      assert bs[i := b][1..] == bs[1..][i - 1 := b];
      var m, x, x' := multiset(bs[0]), Flat(bs[1..]), Flat(bs[1..][i - 1 := b]);
      assert (m + x') + multiset(bs[i]) == m + (x' + multiset(bs[i])) == m + (x + multiset(b)) == (m + x) + multiset(b);
    } else {
      assert bs[i := b][1..] == bs[1..];
    }
  }

  lemma {:induction false} FlatPrefix(bs: Buckets, i: nat)
    requires i < |bs|
    ensures Flat(bs[..i + 1]) == Flat(bs[..i]) + multiset(bs[i])
  {
    if i > 0 {
      FlatPrefix(bs[1..], i - 1);
      assert bs[..i + 1][1..] == bs[1..][..i] && bs[..i][1..] == bs[1..][..i - 1];
    } else {
      assert bs[..1] == [bs[0]] && [bs[0]][1..] == [];
    }
  }

  lemma {:induction false} FlatEmpty(cnt: nat)
    ensures Flat(seq(cnt, _ => [])) == multiset{}
  {
    var bs: Buckets := seq(cnt, _ => []);
    if cnt > 0 {
      FlatEmpty(cnt - 1);
      assert bs[1..] == seq(cnt - 1, _ => []);
    }
  }

  /** Every element is in the bucket its hash selects. */
  ghost predicate Placed(hash: HashFn, bs: Buckets) {
    forall i, e :: 0 <= i < |bs| && e in bs[i] ==> Index(hash, e, |bs|) == i
  }

  /** No two elements are equal. */
  ghost predicate Keyed(less: Less, m: multiset<Elem>) {
    && (forall a :: a in m ==> m[a] == 1)
    && (forall a, b :: a in m && b in m && Equal(less, a, b) ==> a == b)
  }

  lemma IndexInRange(hash: HashFn, e: Elem, cnt: nat)
    requires Pow2(cnt)
    ensures Index(hash, e, cnt) < cnt && Index(hash, e, cnt) == hash(e) % cnt
  {
    MaskIsRemainder(hash(e), cnt);
  }

  /** What adding an element to the front of its bucket does. */
  lemma PushFront(hash: HashFn, bs: Buckets, e: Elem)
    requires Pow2(|bs|) && Placed(hash, bs)
    ensures
      var i := Index(hash, e, |bs|);
      i < |bs| && Placed(hash, bs[i := [e] + bs[i]]) && Flat(bs[i := [e] + bs[i]]) == Flat(bs) + multiset{e}
  {
    hide Flat, Pow2;
    IndexInRange(hash, e, |bs|);
    var i := Index(hash, e, |bs|);
    var b := [e] + bs[i];
    BucketReplaced(hash, bs, i, b);
    FlatUpdate(bs, i, b);
    assert multiset(b) == multiset{e} + multiset(bs[i]);
    hide Index, Placed;
    assert Flat(bs[i := b]) == Flat(bs[i := b]) + multiset(bs[i]) - multiset(bs[i]);
  }

  lemma BucketReplaced(hash: HashFn, bs: Buckets, i: nat, b: seq<Elem>)
    requires Placed(hash, bs) && i < |bs| && forall e :: e in b ==> e in bs[i] || Index(hash, e, |bs|) == i
    ensures Placed(hash, bs[i := b])
  {
    hide Index;
  }

  /** What taking out the element at place `k` of bucket `i` does. */
  lemma TakeOut(hash: HashFn, bs: Buckets, i: nat, k: nat)
    requires i < |bs| && k < |bs[i]| && Placed(hash, bs)
    ensures
      var b := bs[i][..k] + bs[i][k + 1..];
      Placed(hash, bs[i := b]) && Flat(bs[i := b]) + multiset{bs[i][k]} == Flat(bs)
  {
    hide Flat, Index;
    var b := bs[i][..k] + bs[i][k + 1..];
    BucketReplaced(hash, bs, i, b);
    FlatUpdate(bs, i, b);
    assert bs[i] == bs[i][..k] + [bs[i][k]] + bs[i][k + 1..];
    assert multiset(bs[i]) == multiset(b) + multiset{bs[i][k]};
    hide Placed;
    assert Flat(bs[i := b]) + multiset{bs[i][k]} == Flat(bs[i := b]) + multiset(bs[i]) - multiset(b);
  }

  lemma KeyedMore(hash: HashFn, less: Less, m: multiset<Elem>, e: Elem)
    requires Suitable(hash, less) && Keyed(less, m) && NoneEqual(less, m, e)
    ensures Keyed(less, m + multiset{e}) && |m + multiset{e}| == |m| + 1
  {
    assert e !in m;
    forall a, b | a in m + multiset{e} && b in m + multiset{e} && Equal(less, a, b)
      ensures a == b
    {
      assert Equal(less, b, a);
    }
  }

  lemma KeyedLess(hash: HashFn, less: Less, m: multiset<Elem>, m': multiset<Elem>, e: Elem)
    requires Suitable(hash, less) && Keyed(less, m) && m' + multiset{e} == m
    ensures Keyed(less, m') && |m'| + 1 == |m| && m' == m - multiset{e}
    ensures forall x :: Equal(less, e, x) ==> NoneEqual(less, m', x)
  {
    assert forall a :: m[a] == m'[a] + if a == e then 1 else 0;
    assert e in m;
    forall x, a | Equal(less, e, x) && a in m'
      ensures !Equal(less, a, x)
    {
      assert a in m && a != e && Equal(less, x, e);
    }
  }

  ghost predicate NoneEqual(less: Less, m: multiset<Elem>, e: Elem) {
    forall a :: a in m ==> !Equal(less, a, e)
  }

  /** The number of buckets for `elemCnt` elements. */
  ghost function BestCount(elemCnt: nat): nat {
    Top(if elemCnt / 2 < 4 then 4 else elemCnt / 2)
  }

  lemma BestCountFits(elemCnt: nat)
    ensures Pow2(BestCount(elemCnt)) && 4 <= BestCount(elemCnt) && elemCnt < 4 * BestCount(elemCnt)
    ensures BestCount(elemCnt) > 4 ==> 2 * BestCount(elemCnt) <= elemCnt
  {
    var n := if elemCnt / 2 < 4 then 4 else elemCnt / 2;
    TopIsGreatest(n);
    AtLeastFour(n);
  }

  lemma AtLeastFour(n: nat)
    requires n >= 4
    ensures Top(n) >= 4
  {
    assert Top(n) == 2 * Top(n / 2) == 4 * Top(n / 2 / 2);
    TopIsGreatest(n / 2 / 2);
  }

  class Table {
    const hash: HashFn
    const less: Less
    var buckets: Buckets
    var elemCnt: nat

    ghost function Contents(): multiset<Elem>
      reads this
    {
      Flat(buckets)
    }

    ghost predicate Valid()
      reads this
    {
      && Suitable(hash, less)
      && 4 <= |buckets| && Pow2(|buckets|) && Placed(hash, buckets)
      && Keyed(less, Contents()) && elemCnt == |Contents()|
    }

    /** hash_init(), when there is memory for the buckets. */
    constructor (hash: HashFn, less: Less)
      requires Suitable(hash, less)
      ensures Valid() && Contents() == multiset{} && this.hash == hash && this.less == less && |buckets| == 4
    {
      this.hash, this.less := hash, less;
      buckets := seq(4, _ => []);
      elemCnt := 0;
      new;
      FlatEmpty(4);
      assert Pow2(2) && Pow2(4);
    }

    /** The place in bucket `i` of an element equal to `e`. */
    method FindElem(i: nat, e: Elem) returns (k: nat)
      requires i < |buckets|
      ensures k <= |buckets[i]| && (k < |buckets[i]| ==> Equal(less, buckets[i][k], e))
      ensures forall j :: 0 <= j < k ==> !Equal(less, buckets[i][j], e)
    {
      k := 0;
      while k < |buckets[i]| && !Equal(less, buckets[i][k], e)
        invariant k <= |buckets[i]| && forall j :: 0 <= j < k ==> !Equal(less, buckets[i][j], e)
      {
        k := k + 1;
      }
    }

    /** The best number of buckets: bits are turned off from the lowest until a power of 2 is left. */
    static method BestBuckets(elemCnt: nat) returns (cnt: nat)
      ensures cnt == BestCount(elemCnt)
    {
      cnt := elemCnt / 2;
      if cnt < 4 {
        cnt := 4;
      }
      ghost var n := cnt;
      TurnOff(cnt);
      hide And, Pow2;
      while And(cnt, cnt - 1) != 0
        invariant cnt > 0 && Top(cnt) == Top(n)
        invariant And(cnt, cnt - 1) == 0 <==> Pow2(cnt)
      {
        TurnOff(cnt);
        cnt := And(cnt, cnt - 1);
        TurnOff(cnt);
      }
      TopOfPow2(cnt);
    }

    /** Moves the elements of one old bucket. */
    method MoveBucket(bucket: seq<Elem>, into: Buckets) returns (bs: Buckets)
      requires Pow2(|into|) && Placed(hash, into)
      ensures |bs| == |into| && Placed(hash, bs) && Flat(bs) == Flat(into) + multiset(bucket)
    {
      hide Pow2, Index, Flat, Placed;
      bs := into;
      for j := 0 to |bucket|
        invariant |bs| == |into| && Placed(hash, bs) && Flat(bs) == Flat(into) + multiset(bucket[..j])
      {
        var k := Index(hash, bucket[j], |bs|);
        PushFront(hash, bs, bucket[j]);
        bs := bs[k := [bucket[j]] + bs[k]];
        assert bucket[..j + 1] == bucket[..j] + [bucket[j]];
      }
      assert bucket[..|bucket|] == bucket;
    }

    /** Moves every element to the bucket that it belongs in among `cnt` new ones. */
    method Redistribute(cnt: nat) returns (bs: Buckets)
      requires Pow2(cnt)
      ensures |bs| == cnt && Placed(hash, bs) && Flat(bs) == Flat(buckets)
    {
      bs := seq(cnt, _ => []);
      FlatEmpty(cnt);
      assert Flat(buckets[..0]) == multiset{};
      hide Pow2, Index, Flat, Placed;
      for i := 0 to |buckets|
        invariant |bs| == cnt && Placed(hash, bs) && Flat(bs) == Flat(buckets[..i])
      {
        bs := MoveBucket(buckets[i], bs);
        FlatPrefix(buckets, i);
      }
      assert buckets[..|buckets|] == buckets;
    }

    /** rehash(); `allocOk` says whether there is memory for the new buckets. */
    method Rehash(allocOk: bool)
      requires Valid()
      modifies this`buckets
      ensures Valid() && Contents() == old(Contents())
      ensures allocOk || |old(buckets)| == BestCount(elemCnt) ==>
        |buckets| == BestCount(elemCnt) && elemCnt < 4 * |buckets|
      ensures !allocOk ==> buckets == old(buckets)
    {
      var cnt := BestBuckets(elemCnt);
      BestCountFits(elemCnt);
      if cnt == |buckets| || !allocOk {
        return;
      }
      buckets := Redistribute(cnt);
    }

    /** What the search of one bucket says about the whole table. */
    lemma Found(i: nat, e: Elem, k: nat)
      requires Valid() && i == Index(hash, e, |buckets|) && i < |buckets|
      requires k <= |buckets[i]| && (k < |buckets[i]| ==> Equal(less, buckets[i][k], e))
      requires forall j :: 0 <= j < k ==> !Equal(less, buckets[i][j], e)
      ensures k < |buckets[i]| ==> buckets[i][k] in Contents()
      ensures k == |buckets[i]| ==> NoneEqual(less, Contents(), e)
    {
      if k < |buckets[i]| {
        FlatIn(buckets, buckets[i][k]);
      } else {
        forall a | a in Contents()
          ensures !Equal(less, a, e)
        {
          FlatIn(buckets, a);
          var j :| 0 <= j < |buckets| && a in buckets[j];
          assert Index(hash, a, |buckets|) == j;
        }
      }
    }

    /** Whether `r` is the element equal to `e` among `m`. */
    ghost predicate IsMatch(m: multiset<Elem>, e: Elem, r: Option<Elem>) {
      match r
      case None => NoneEqual(less, m, e)
      case Some(a) => a in m && Equal(less, a, e)
    }

    /** hash_find() */
    method Find(e: Elem) returns (r: Option<Elem>)
      requires Valid()
      ensures IsMatch(Contents(), e, r)
    {
      var i := Index(hash, e, |buckets|);
      IndexInRange(hash, e, |buckets|);
      var k := FindElem(i, e);
      Found(i, e, k);
      r := if k < |buckets[i]| then Some(buckets[i][k]) else None;
    }

    /** insert_elem() */
    method Add(e: Elem)
      requires Valid() && NoneEqual(less, Contents(), e)
      modifies this
      ensures Valid() && Contents() == old(Contents()) + multiset{e} && |buckets| == |old(buckets)|
    {
      hide Flat, Placed, Keyed, Suitable, NoneEqual, Pow2;
      KeyedMore(hash, less, Contents(), e);
      var i := Index(hash, e, |buckets|);
      PushFront(hash, buckets, e);
      elemCnt := elemCnt + 1;
      buckets := buckets[i := [e] + buckets[i]];
    }

    /** remove_elem() */
    method Remove(i: nat, k: nat)
      requires Valid() && i < |buckets| && k < |buckets[i]|
      modifies this
      ensures Valid() && Contents() + multiset{old(buckets[i][k])} == old(Contents()) && |buckets| == |old(buckets)|
    {
      hide Flat, Placed, Keyed, Suitable, Pow2;
      TakeOut(hash, buckets, i, k);
      var b := buckets[i][..k] + buckets[i][k + 1..];
      KeyedLess(hash, less, Contents(), Flat(buckets[i := b]), buckets[i][k]);
      elemCnt := elemCnt - 1;
      buckets := buckets[i := b];
    }

    /** hash_insert() */
    method Insert(e: Elem, allocOk: bool) returns (r: Option<Elem>)
      requires Valid()
      modifies this
      ensures Valid() && IsMatch(old(Contents()), e, r)
      ensures Contents() == if r.None? then old(Contents()) + multiset{e} else old(Contents())
      ensures elemCnt == |Contents()|
      ensures |buckets| == if allocOk then BestCount(elemCnt) else |old(buckets)|
      ensures allocOk ==> elemCnt < 4 * |buckets|
    {
      hide Flat, Placed, Keyed, Suitable, Pow2, NoneEqual, BestCount;
      r := Find(e);
      if r.None? {
        Add(e);
      }
      Rehash(allocOk);
    }

    /** hash_replace() */
    method Replace(e: Elem, allocOk: bool) returns (r: Option<Elem>)
      requires Valid()
      modifies this
      ensures Valid() && IsMatch(old(Contents()), e, r)
      ensures Contents() == (if r.None? then old(Contents()) else old(Contents()) - multiset{r.value}) + multiset{e}
      ensures elemCnt == |Contents()|
      ensures |buckets| == if allocOk then BestCount(elemCnt) else |old(buckets)|
      ensures allocOk ==> elemCnt < 4 * |buckets|
    {
      hide Flat, Placed, Keyed, Suitable, Pow2, NoneEqual, BestCount;
      r := Extract(e);
      Add(e);
      Rehash(allocOk);
    }

    /** Takes out the element equal to `e`, if any. */
    method Extract(e: Elem) returns (r: Option<Elem>)
      requires Valid()
      modifies this
      ensures Valid() && IsMatch(old(Contents()), e, r) && IsMatch(Contents(), e, None)
      ensures Contents() == if r.None? then old(Contents()) else old(Contents()) - multiset{r.value}
      ensures r.None? ==> buckets == old(buckets)
      ensures |buckets| == |old(buckets)|
    {
      hide Flat, Placed, Keyed, Suitable, Pow2, Index, NoneEqual;
      var i := Index(hash, e, |buckets|);
      IndexInRange(hash, e, |buckets|);
      var k := FindElem(i, e);
      Found(i, e, k);
      if k == |buckets[i]| {
        return None;
      }
      ghost var m := Contents();
      r := Some(buckets[i][k]);
      Remove(i, k);
      KeyedLess(hash, less, m, Contents(), r.value);
    }

    /** hash_delete() */
    method Delete(e: Elem, allocOk: bool) returns (r: Option<Elem>)
      requires Valid()
      modifies this
      ensures Valid() && IsMatch(old(Contents()), e, r)
      ensures Contents() == if r.None? then old(Contents()) else old(Contents()) - multiset{r.value}
      ensures elemCnt == |Contents()|
      ensures |buckets| == if r.Some? && allocOk then BestCount(elemCnt) else |old(buckets)|
      ensures r.Some? && allocOk ==> elemCnt < 4 * |buckets|
    {
      hide Flat, Placed, Keyed, Suitable, Pow2, NoneEqual, BestCount;
      r := Extract(e);
      if r.Some? {
        Rehash(allocOk);
      }
    }
  }

  /** The elements in the order of an iteration. */
  ghost function Joined(bs: Buckets): seq<Elem> {
    if bs == [] then [] else bs[0] + Joined(bs[1..])
  }

  lemma {:induction false} JoinedIsFlat(bs: Buckets)
    ensures multiset(Joined(bs)) == Flat(bs)
  {
    if bs != [] {
      JoinedIsFlat(bs[1..]);
    }
  }

  /** What comes from place `p` of bucket `b` on. */
  ghost function Rest(bs: Buckets, b: nat, p: nat): seq<Elem> {
    if b < |bs| && p <= |bs[b]| then bs[b][p..] + Joined(bs[b + 1..]) else []
  }

  lemma RestAll(bs: Buckets)
    requires bs != []
    ensures Rest(bs, 0, 0) == Joined(bs)
  {
  }

  lemma RestSkips(bs: Buckets, b: nat)
    requires b < |bs|
    ensures Rest(bs, b, |bs[b]|) == if b + 1 < |bs| then Rest(bs, b + 1, 0) else []
  {
    assert b + 1 < |bs| ==> bs[b + 1..][1..] == bs[b + 2..];
  }

  lemma RestFront(bs: Buckets, b: nat, p: nat)
    requires b < |bs| && p < |bs[b]|
    ensures Rest(bs, b, p) == [bs[b][p]] + Rest(bs, b, p + 1)
  {
  }

  class Iterator {
    const table: Table
    var bucket: nat
    // the place of the current element in its bucket; -1 before the first element
    var place: int
    var done: bool

    ghost predicate Valid()
      reads this, table
    {
      done || (bucket < |table.buckets| && -1 <= place < |table.buckets[bucket]|)
    }

    /** The elements still to come. */
    ghost function Remaining(): seq<Elem>
      reads this, table
    {
      if done || place < -1 then [] else Rest(table.buckets, bucket, place + 1)
    }

    /** hash_first() */
    constructor (table: Table)
      requires |table.buckets| > 0
      ensures Valid() && !done && this.table == table && Remaining() == Joined(table.buckets)
    {
      hide Joined, Rest;
      RestAll(table.buckets);
      this.table := table;
      bucket, place, done := 0, -1, false;
    }

    /** hash_next() */
    method Next() returns (r: Option<Elem>)
      requires Valid() && !done
      modifies this
      ensures Valid() && done == r.None?
      ensures r.None? ==> old(Remaining()) == []
      ensures r.Some? ==> old(Remaining()) == [r.value] + Remaining()
    {
      hide Joined, Rest;
      ghost var rest := Remaining();
      place := place + 1;
      while place == |table.buckets[bucket]|
        invariant !done && bucket < |table.buckets| && 0 <= place <= |table.buckets[bucket]|
        invariant rest == Rest(table.buckets, bucket, place)
        decreases |table.buckets| - bucket
      {
        RestSkips(table.buckets, bucket);
        bucket := bucket + 1;
        if bucket >= |table.buckets| {
          done := true;
          return None;
        }
        place := 0;
      }
      r := Some(table.buckets[bucket][place]);
      RestFront(table.buckets, bucket, place);
    }
  }

  /** An iteration visits every element, and each once. */
  method VisitAll(table: Table) returns (visited: seq<Elem>)
    requires table.Valid()
    ensures multiset(visited) == table.Contents()
  {
    JoinedIsFlat(table.buckets);
    ghost var all := Joined(table.buckets);
    hide Flat, Joined, Rest, Placed, Keyed, Suitable, Pow2;
    var i := new Iterator(table);
    visited := [];
    var e := i.Next();
    while e.Some?
      invariant fresh(i) && i.Valid() && i.table == table && i.done == e.None?
      invariant Visited(all, visited, if e.Some? then [e.value] + i.Remaining() else [])
      decreases |all| - |visited|
    {
      Onward(all, visited, e.value, i.Remaining());
      visited := visited + [e.value];
      e := i.Next();
    }
  }

  ghost predicate Visited(all: seq<Elem>, visited: seq<Elem>, rest: seq<Elem>) {
    all == visited + rest
  }

  lemma Onward(all: seq<Elem>, visited: seq<Elem>, e: Elem, rest: seq<Elem>)
    requires Visited(all, visited, [e] + rest)
    ensures Visited(all, visited + [e], rest) && |visited| < |all|
  {
  }
}
