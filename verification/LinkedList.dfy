/**
 Doubly linked lists with a head and a tail element, rewired in place: insertion,
 removal, splicing, reversal, and the natural merge sort.
 */
module LinkedLists {

  import opened ListOrder
  import opened Sequences

  ghost predicate Joined(a: Elem, b: Elem)
    reads a, b
  {
    a.next == b && b.prev == a
  }

  /** Neighbours in `c` are linked to each other; its ends may point anywhere. */
  ghost predicate Chain(c: seq<Elem>)
    reads c
  {
    NoDup(c) && forall i, j :: 0 <= i && j == i + 1 < |c| ==> Joined(c[i], c[j])
  }

  /** `s` is a whole list, from its head element to its tail element. */
  ghost predicate Linked(s: seq<Elem>)
    reads s
  {
    |s| >= 2 && Chain(s) && s[0].prev == null && s[|s| - 1].next == null
  }

  ghost predicate Apart(s: seq<Elem>, t: seq<Elem>) {
    forall i, j :: 0 <= i < |s| && 0 <= j < |t| ==> s[i] != t[j]
  }

  lemma ChainParts(s: seq<Elem>, i: nat)
    requires Chain(s) && i <= |s|
    ensures Chain(s[..i]) && Chain(s[i..]) && Apart(s[..i], s[i..])
    ensures 0 < i < |s| ==> Joined(s[i - 1], s[i])
  {
  }

  lemma ChainJoined(p: seq<Elem>, q: seq<Elem>)
    requires Chain(p) && Chain(q) && Apart(p, q)
    requires p != [] && q != [] ==> Joined(p[|p| - 1], q[0])
    ensures Chain(p + q)
  {
  }

  /** The list `s` without `s[j..k]`. */
  ghost function Without(s: seq<Elem>, j: nat, k: nat): seq<Elem> {
    if j <= k <= |s| then s[..j] + s[k..] else s
  }

  /** The list `s` with `c` in front of `s[i]`. */
  ghost function With(s: seq<Elem>, i: nat, c: seq<Elem>): seq<Elem> {
    if i <= |s| then s[..i] + c + s[i..] else s
  }

  /** Takes `s[j..k]` out of its list. */
  method Detach(first: Elem, last: Elem, ghost s: seq<Elem>, ghost j: nat, ghost k: nat)
    requires Linked(s) && 1 <= j < k < |s| && s[j] == first && s[k - 1] == last
    modifies s[j - 1], s[k]
    ensures Linked(Without(s, j, k)) && Chain(s[j..k]) && Apart(Without(s, j, k), s[j..k])
  {
    ghost var p, c, q := s[..j], s[j..k], s[k..];
    assert Chain(p) && Chain(c) && Chain(q) && Apart(p, c) && Apart(c, q) && Apart(p, q) by {
      ChainParts(s, k);
      ChainParts(s[..k], j);
      assert s[..k][..j] == p && s[..k][j..] == c;
    }
    assert Joined(s[j - 1], s[j]) && Joined(s[k - 1], s[k]);
    first.prev.next := last.next;
    last.next.prev := first.prev;
    ChainJoined(p, q);
  }

  /** Puts a chain into a list. */
  method Attach(before: Elem, first: Elem, last: Elem, ghost s: seq<Elem>, ghost i: nat, ghost c: seq<Elem>)
    requires Linked(s) && Chain(c) && Apart(s, c) && 1 <= i < |s| && s[i] == before
    requires c != [] && c[0] == first && c[|c| - 1] == last
    modifies s[i - 1], before, first, last
    ensures Linked(With(s, i, c))
  {
    ghost var p, q := s[..i], s[i..];
    ChainParts(s, i);
    assert Apart(p, c) && Apart(c, q);
    assert Joined(s[i - 1], s[i]);
    first.prev := before.prev;
    last.next := before;
    before.prev.next := first;
    before.prev := last;
    assert Chain(p) && Chain(q) && Chain(c);
    ChainJoined(p, c);
    ChainJoined(p + c, q);
  }

  /** list_insert() */
  method Insert(before: Elem, elem: Elem, ghost s: seq<Elem>, ghost i: nat)
    requires Linked(s) && 1 <= i < |s| && s[i] == before && elem !in s
    modifies s[i - 1], before, elem
    ensures Linked(With(s, i, [elem]))
  {
    Attach(before, elem, elem, s, i, [elem]);
  }

  /** list_remove() */
  method Remove(elem: Elem, ghost s: seq<Elem>, ghost i: nat) returns (next: Elem)
    requires Linked(s) && 1 <= i < |s| - 1 && s[i] == elem
    modifies s[i - 1], s[i + 1]
    ensures Linked(Without(s, i, i + 1)) && next == s[i + 1]
  {
    assert Joined(s[i], s[i + 1]);
    Detach(elem, elem, s, i, i + 1);
    next := elem.next;
  }

  /**
   list_splice(): moves `src[j..k]` in front of `before`, which is element `at` of `list`:
   what is left of `src`, or another list.
   */
  method Splice(before: Elem, first: Elem, last: Elem,
                ghost repr: set<Elem>, ghost list: seq<Elem>, ghost at: nat,
                ghost src: seq<Elem>, ghost j: nat, ghost k: nat)
    requires Linked(src) && Within(src, repr) && 1 <= j <= k < |src| && src[j] == first && src[k] == last
    requires list == Without(src, j, k) || (Linked(list) && Within(list, repr) && Apart(list, src))
    requires 1 <= at < |list| && list[at] == before
    modifies repr
    ensures Linked(With(list, at, src[j..k]))
    ensures list == Without(src, j, k) || Linked(Without(src, j, k))
  {
    hide *;
    SamePlace(src, j, k);
    if first == last {
      NothingToSplice(list, at, src, j);
      return;
    }
    NextOf(src, k - 1);
    var end := last.prev;
    SpliceFrame(repr, list, src, j, k);
    ghost var rest := Without(src, j, k);
    Detach(first, end, src, j, k);
    assert Linked(rest);
    label detached:
    Attach(before, first, end, list, at, src[j..k]);
    assert list != rest ==> unchanged@detached(rest);
    assert list != rest ==> Linked(rest);
  }

  lemma NothingToSplice(list: seq<Elem>, at: nat, src: seq<Elem>, j: nat)
    requires j <= |src| && at <= |list|
    ensures Without(src, j, j) == src && With(list, at, src[j..j]) == list
  {
  }

  /** The elements that a splice changes are not in the other list. */
  lemma SpliceFrame(repr: set<Elem>, list: seq<Elem>, src: seq<Elem>, j: nat, k: nat)
    requires Linked(src) && Within(src, repr) && 1 <= j < k < |src|
    requires list == Without(src, j, k) || (Within(list, repr) && Apart(list, src))
    ensures src[j - 1] in repr && src[k] in repr && src[j] in repr && src[k - 1] in repr
    ensures forall i :: 0 <= i < |list| ==> list[i] in repr
    ensures |src[j..k]| == k - j && src[j..k][0] == src[j] && src[j..k][k - j - 1] == src[k - 1]
    ensures Apart(list, src[j..k])
    ensures list != Without(src, j, k) ==> src[j - 1] !in list && src[k] !in list
    ensures list != Without(src, j, k) ==> forall i :: 0 <= i < |list| ==> list[i] !in Without(src, j, k)
    ensures src[j] !in Without(src, j, k) && src[k - 1] !in Without(src, j, k)
  {
  }

  /** find_end_of_run(): the end of the longest nondecreasing run that starts at `a`. */
  method FindEndOfRun(a: Elem, b: Elem, less: Less, ghost s: seq<Elem>, ghost i: nat, ghost j: nat) returns (end: Elem)
    requires Linked(s) && 1 <= i < j < |s| && s[i] == a && s[j] == b
    ensures end == s[RunEnd(less, s, i, j)]
  {
    ghost var k := i + 1;
    NextOf(s, i);
    end := a.next;
    while end != b && !Precedes(less, end, end.prev)
      invariant i < k <= j && s[k] == end && s[k].prev == s[k - 1]
      invariant RunEnd(less, s, k - 1, j) == RunEnd(less, s, i, j)
      decreases j - k
    {
      SamePlace(s, k, j);
      NextOf(s, k);
      end, k := end.next, k + 1;
    }
    SamePlace(s, k, j);
  }

  ghost predicate Within(s: seq<Elem>, repr: set<Elem>) {
    forall i :: 0 <= i < |s| ==> s[i] in repr
  }

  lemma StableWithin(less: Less, s: seq<Elem>, r: seq<Elem>, repr: set<Elem>)
    requires Stable(less, s, r) && Within(s, repr)
    ensures Within(r, repr)
  {
    forall i | 0 <= i < |r|
      ensures r[i] in repr
    {
      assert r[i] in multiset(r);
      assert r[i] in s;
    }
  }

  lemma NextOf(s: seq<Elem>, i: nat)
    requires Linked(s) && i + 1 < |s|
    ensures s[i].next == s[i + 1] && s[i + 1].prev == s[i]
  {
    assert Joined(s[i], s[i + 1]);
  }

  lemma ExchangeOne(s: seq<Elem>, i: nat, k: nat)
    requires i < k < |s| - 1
    ensures
      var t := Exchange(s, i, k, k + 1);
      && t == With(Without(s, k, k + 1), i, s[k..k + 1])
      && |Without(s, k, k + 1)| == |s| - 1 && Without(s, k, k + 1)[i] == s[i]
      && |t| == |s| && t[i + 1] == s[i] && t[k + 1] == s[k + 1]
  {
  }

  /** One step of inplace_merge(), from `r` to `t`. */
  method MergeStep(a0: Elem, a1b0: Elem, less: Less,
                   ghost repr: set<Elem>, ghost r: seq<Elem>, ghost lo: nat, ghost i: nat, ghost k: nat, ghost hi: nat)
    returns (a0': Elem, a1b0': Elem, ghost t: seq<Elem>, ghost i': nat, ghost k': nat)
    requires StrictWeak(less) && Linked(r) && Within(r, repr) && Merging(less, r, lo, i, k, hi)
    requires 1 <= lo <= i < k < hi < |r|
    requires r[i] == a0 && r[k] == a1b0
    modifies repr
    ensures Linked(t) && Within(t, repr) && lo <= i' <= k' <= hi && |t| == |r| && t[..lo] == r[..lo]
    ensures t[hi..] == r[hi..]
    ensures Merging(less, t, lo, i', k', hi) && Stable(less, r, t)
    ensures t[i'] == a0' && t[k'] == a1b0'
    ensures k' == k + 1 || (k' == k && i' == i + 1)
  {
    hide *;
    a0', a1b0', t, i', k' := a0, a1b0, r, i, k;
    if !Precedes(less, a1b0, a0) {
      MergeStay(less, r, lo, i, k, hi);
      StableRefl(less, r);
      NextOf(r, i);
      a0', i' := a0.next, i + 1;
    } else {
      MergeMove(less, r, lo, i, k, hi);
      NextOf(r, k);
      ExchangeOne(r, i, k);
      a1b0' := a1b0.next;
      Splice(a0, a1b0'.prev, a1b0', repr, Without(r, k, k + 1), i, r, k, k + 1);
      t, i', k' := Exchange(r, i, k, k + 1), i + 1, k + 1;
      StableWithin(less, r, t, repr);
    }
  }

  /** inplace_merge() */
  method InplaceMerge(first: Elem, second: Elem, b1: Elem, less: Less,
                      ghost repr: set<Elem>, ghost s: seq<Elem>, ghost lo: nat, ghost mid: nat, ghost hi: nat)
    returns (ghost r: seq<Elem>)
    requires StrictWeak(less) && Linked(s) && Within(s, repr) && 1 <= lo < mid < hi < |s|
    requires s[lo] == first && s[mid] == second && s[hi] == b1
    requires Sorted(less, s[lo..mid]) && Sorted(less, s[mid..hi])
    modifies repr
    ensures Linked(r) && Within(r, repr) && |r| == |s| && r[..lo] == s[..lo] && r[hi..] == s[hi..]
    ensures Sorted(less, r[lo..hi]) && Stable(less, s, r)
  {
    var a0, a1b0 := first, second;
    ghost var i, k := lo, mid;
    r := s;
    StableRefl(less, s);
    assert Merging(less, r, lo, i, k, hi);
    hide *;
    while a0 != a1b0 && a1b0 != b1
      invariant Linked(r) && Within(r, repr) && |r| == |s| && r[..lo] == s[..lo] && r[hi..] == s[hi..]
      invariant lo <= i <= k <= hi && Merging(less, r, lo, i, k, hi) && Stable(less, s, r)
      invariant r[i] == a0 && r[k] == a1b0
      decreases hi - k, k - i
    {
      ghost var was := r;
      a0, a1b0, r, i, k := MergeStep(a0, a1b0, less, repr, r, lo, i, k, hi);
      StableTrans(less, s, was, r);
    }
    SamePlace(r, i, k);
    SamePlace(r, k, hi);
    MergeDone(less, r, lo, i, k, hi);
  }

  lemma SamePlace(s: seq<Elem>, i: nat, j: nat)
    requires Linked(s) && i < |s| && j < |s|
    ensures s[i] == s[j] <==> i == j
  {
  }

  /** The body of the loop of list_sort(): merges neighbouring runs two by two, and counts the results. */
  method MergeRuns(head: Elem, tail: Elem, less: Less, ghost repr: set<Elem>, ghost s0: seq<Elem>)
    returns (runs: nat, ghost s: seq<Elem>)
    requires StrictWeak(less) && Linked(s0) && Within(s0, repr) && |s0| >= 2 && s0[0] == head && s0[|s0| - 1] == tail
    modifies repr
    ensures Linked(s) && Within(s, repr) && Passed(less, s0, s, runs)
  {
    hide *;
    AtLeastTwo(s0);
    ghost var p, last := 1, |s0| - 1;
    s := s0;
    PassBegins(less, s0);
    NextOf(s, 0);
    var a0 := head.next;
    runs := 0;
    while a0 != tail
      invariant Linked(s) && Within(s, repr) && |s| == last + 1
      invariant 1 <= p <= last && s[p] == a0 && s[last] == tail
      invariant Passing(less, s0, s, p, runs)
      decreases last - p
    {
      SamePlace(s, p, last);
      var a1b0 := FindEndOfRun(a0, tail, less, s, p, last);
      ghost var k := RunEnd(less, s, p, last);
      RunEndIsMaximal(less, s, p, last);
      RunBounds(less, s, p, k);
      if a1b0 == tail {
        PassBreaks(less, s0, s, p, runs);
        runs := runs + 1;
        return;
      }
      var b1 := FindEndOfRun(a1b0, tail, less, s, k, last);
      ghost var q := RunEnd(less, s, k, last);
      RunEndIsMaximal(less, s, k, last);
      RunBounds(less, s, k, q);
      ghost var t := InplaceMerge(a0, a1b0, b1, less, repr, s, p, k, q);
      PassStep(less, s0, s, p, k, q, t, runs);
      SuffixOf(s, t, q, q, last);
      a0, s, p := b1, t, q;
      runs := runs + 1;
    }
    SamePlace(s, p, last);
    PassEnds(less, s0, s, p, runs);
  }

  lemma RunBounds(less: Less, s: seq<Elem>, i: nat, k: nat)
    requires Linked(s) && MaximalRun(less, s, i, k, |s| - 1)
    ensures i < k < |s| && Sorted(less, s[i..k])
    ensures s[k] == s[|s| - 1] <==> k == |s| - 1
  {
  }

  lemma AtLeastTwo(s: seq<Elem>)
    requires Linked(s)
    ensures |s| >= 2
  {
  }

  lemma PassedEnds(less: Less, s0: seq<Elem>, s: seq<Elem>, runs: nat)
    requires Passed(less, s0, s, runs)
    ensures s == [s0[0]] + Inner(s) + [s0[|s0| - 1]]
  {
  }

  /** The links of the elements up to `p` have been swapped. */
  ghost predicate SwappedTo(s: seq<Elem>, p: nat)
    reads s
  {
    var last := |s| - 1;
    && 1 <= p <= last && NoDup(s)
    && s[0].prev == null && s[last].next == null && s[0].next == s[1] && s[last].prev == s[last - 1]
    && (forall x :: 0 < x < p ==> s[x].next == s[x - 1] && s[x].prev == s[x + 1])
    && (forall x :: p <= x < last ==> s[x].prev == s[x - 1] && s[x].next == s[x + 1])
  }

  /** A whole list with its inner elements in reverse order. */
  ghost function Turned(s: seq<Elem>): seq<Elem> {
    seq(|s|, x requires 0 <= x < |s| => if 0 < x < |s| - 1 then s[|s| - 1 - x] else s[x])
  }

  lemma TurnedEnds(s: seq<Elem>)
    requires |s| >= 2
    ensures Turned(s) == [s[0]] + Inner(Turned(s)) + [s[|s| - 1]]
    ensures |s| == 2 ==> Turned(s) == s
  {
  }

  lemma TurnedLinked(s: seq<Elem>)
    requires |s| >= 3 && NoDup(s) && s[0].prev == null && s[|s| - 1].next == null
    requires Joined(s[0], s[|s| - 2]) && Joined(s[1], s[|s| - 1])
    requires forall x :: 1 < x < |s| - 1 ==> s[x].next == s[x - 1]
    requires forall x :: 0 < x < |s| - 2 ==> s[x].prev == s[x + 1]
    ensures Linked(Turned(s))
  {
    var r, last := Turned(s), |s| - 1;
    forall i, j | 0 <= i < j < |r|
      ensures r[i] != r[j]
    {
    }
    forall i, j | 0 <= i && j == i + 1 < |r|
      ensures Joined(r[i], r[j])
    {
      if 0 < i < last - 1 {
        assert s[last - i].next == s[last - i - 1] && s[last - j].prev == s[last - j + 1];
      }
    }
  }

  /** struct list, with the elements it holds between its head and tail. */
  class List {
    const head: Elem
    const tail: Elem
    ghost var elems: seq<Elem>

    /** list_init() */
    constructor ()
      ensures Valid() && elems == [] && fresh(head) && fresh(tail)
    {
      head := new Elem(0);
      tail := new Elem(0);
      elems := [];
      new;
      head.next := tail;
      tail.prev := head;
    }

    ghost function All(): seq<Elem>
      reads this
    {
      [head] + elems + [tail]
    }

    ghost predicate Valid()
      reads this, All()
    {
      Linked(All())
    }

    lemma InnerAll()
      ensures Inner(All()) == elems
    {
    }

    /** list_reverse() */
    method Reverse()
      requires Valid()
      modifies this, All()
      ensures Valid() && All() == Turned(old(All()))
    {
      hide Turned, Inner;
      ghost var s, p := All(), 1;
      assert Joined(s[0], s[1]);
      if head.next == tail {
        SamePlace(s, 1, |s| - 1);
        TurnedEnds(s);
        return;
      }
      var e := head.next;
      while e != tail
        invariant SwappedTo(s, p) && s[p] == e
        decreases |s| - p
      {
        e.prev, e.next := e.next, e.prev;
        e, p := e.prev, p + 1;
      }
      head.next, tail.prev := tail.prev, head.next;
      head.next.prev, tail.prev.next := tail.prev.next, head.next.prev;
      TurnedLinked(s);
      TurnedEnds(s);
      elems := Inner(Turned(s));
      assert All() == Turned(s);
    }

    /** One pass of list_sort(). */
    method Pass(less: Less, ghost repr: set<Elem>) returns (runs: nat)
      requires Valid() && StrictWeak(less) && Within(All(), repr)
      modifies this, repr
      ensures Valid() && Within(All(), repr) && Passed(less, old(All()), All(), runs)
    {
      hide Passed, Linked, Inner, Within;
      ghost var s0, s := All(), [];
      AtLeastTwo(s0);
      runs, s := MergeRuns(head, tail, less, repr, s0);
      PassedEnds(less, s0, s, runs);
      elems := Inner(s);
      assert All() == s;
    }

    /** list_sort() */
    method Sort(less: Less)
      requires Valid() && StrictWeak(less)
      modifies this, All()
      ensures Valid() && Sorted(less, elems) && Stable(less, old(elems), elems)
    {
      ghost var repr := set e | e in All();
      ghost var s0 := All();
      var runs := Pass(less, repr);
      while runs > 1
        invariant Valid() && Within(All(), repr)
        invariant Stable(less, s0, All()) && |All()| == |s0|
        invariant Runs(less, Inner(All())) <= runs
      {
        ghost var was := All();
        runs := Pass(less, repr);
        StableTrans(less, s0, was, All());
      }
      OneRunIsSorted(less, Inner(All()));
      InnerAll();
      StableInside(less, s0, All());
    }
  }
}
