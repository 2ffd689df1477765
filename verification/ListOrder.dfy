/**
 Elements of an intrusive list, and what sorting them means: runs, stability, and the
 one arrangement that a stable sort can produce.
 */
module ListOrder {

  import opened Sequences

  /** struct list_elem, together with the data of the structure it is embedded in. */
  class Elem {
    var prev: Elem?
    var next: Elem?
    const key: int

    constructor (key: int)
      ensures this.key == key && prev == null && next == null
    {
      this.key := key;
      prev, next := null, null;
    }
  }

  type Less = (int, int) -> bool

  /** The orders `less` may describe: equal elements need not be identical. */
  ghost predicate StrictWeak(less: Less) {
    && (forall x :: !less(x, x))
    && (forall x, y :: less(x, y) ==> !less(y, x))
    && (forall x, y, z :: !less(y, x) && !less(z, y) ==> !less(z, x))
  }

  predicate Precedes(less: Less, a: Elem, b: Elem) {
    less(a.key, b.key)
  }

  /** Nondecreasing. */
  ghost predicate Sorted(less: Less, s: seq<Elem>) {
    forall i, j :: 0 <= i < j < |s| ==> !Precedes(less, s[j], s[i])
  }

  // ---------- Stability ----------

  ghost predicate Same(less: Less, a: Elem, b: Elem) {
    !Precedes(less, a, b) && !Precedes(less, b, a)
  }

  ghost predicate InOrder(s: seq<Elem>, a: Elem, b: Elem) {
    exists i, j :: 0 <= i < j < |s| && s[i] == a && s[j] == b
  }

  /** `r` rearranges `s` and keeps equal elements in the order they had. */
  ghost predicate Stable(less: Less, s: seq<Elem>, r: seq<Elem>) {
    && multiset(r) == multiset(s)
    && (forall i, j :: 0 <= i < j < |s| && Same(less, s[i], s[j]) ==> InOrder(r, s[i], s[j]))
  }

  /** The part of a list from `a` to `c`, cut at `b`, with its two halves exchanged. */
  ghost function Exchange(s: seq<Elem>, a: nat, b: nat, c: nat): seq<Elem>
    requires a <= b <= c <= |s|
  {
    s[..a] + s[b..c] + s[a..b] + s[c..]
  }

  lemma ExchangeKeeps(s: seq<Elem>, a: nat, b: nat, c: nat)
    requires a <= b <= c <= |s|
    ensures |Exchange(s, a, b, c)| == |s| && multiset(Exchange(s, a, b, c)) == multiset(s)
    ensures NoDup(s) ==> NoDup(Exchange(s, a, b, c))
  {
    assert s == s[..a] + s[a..b] + s[b..c] + s[c..];
    if NoDup(s) {
      Arranged(s, Exchange(s, a, b, c));
    }
  }

  /** Where an element of `s` ends up. */
  ghost function Moved(a: nat, b: nat, c: nat, i: nat): nat
    requires a <= b <= c
  {
    if a <= i < b then i + (c - b) else if b <= i < c then i - (b - a) else i
  }

  lemma MovedAt(s: seq<Elem>, a: nat, b: nat, c: nat, i: nat)
    requires a <= b <= c <= |s| && i < |s|
    ensures Moved(a, b, c, i) < |s| == |Exchange(s, a, b, c)| && Exchange(s, a, b, c)[Moved(a, b, c, i)] == s[i]
  {
  }

  /** Moving an element forward past greater ones is stable. */
  lemma ExchangeStable(less: Less, s: seq<Elem>, a: nat, b: nat)
    requires a < b < |s|
    requires forall i :: a <= i < b ==> Precedes(less, s[b], s[i])
    ensures Stable(less, s, Exchange(s, a, b, b + 1))
  {
    hide Exchange, NoDup;
    var r := Exchange(s, a, b, b + 1);
    ExchangeKeeps(s, a, b, b + 1);
    forall i, j | 0 <= i < j < |s| && Same(less, s[i], s[j])
      ensures InOrder(r, s[i], s[j])
    {
      assert !(a <= i < b && j == b);
      MovedAt(s, a, b, b + 1, i);
      MovedAt(s, a, b, b + 1, j);
      assert r[Moved(a, b, b + 1, i)] == s[i] && r[Moved(a, b, b + 1, j)] == s[j];
    }
  }

  lemma StableRefl(less: Less, s: seq<Elem>)
    ensures Stable(less, s, s)
  {
  }

  lemma StableTrans(less: Less, s: seq<Elem>, t: seq<Elem>, r: seq<Elem>)
    requires Stable(less, s, t) && Stable(less, t, r)
    ensures Stable(less, s, r)
  {
    forall i, j | 0 <= i < j < |s| && Same(less, s[i], s[j])
      ensures InOrder(r, s[i], s[j])
    {
      var p, q :| 0 <= p < q < |t| && t[p] == s[i] && t[q] == s[j];
    }
  }

  /** A stable sort has one possible result. */
  lemma StableSortUnique(less: Less, s: seq<Elem>, r: seq<Elem>, q: seq<Elem>)
    requires NoDup(s)
    requires Stable(less, s, r) && Sorted(less, r)
    requires Stable(less, s, q) && Sorted(less, q)
    ensures r == q
  {
    assert |r| == |multiset(r)| == |q|;
    AgreeUpTo(less, s, r, q, |r|);
  }

  lemma {:induction false} AgreeUpTo(less: Less, s: seq<Elem>, r: seq<Elem>, q: seq<Elem>, p: nat)
    requires NoDup(s) && p <= |r| == |q|
    requires Stable(less, s, r) && Sorted(less, r)
    requires Stable(less, s, q) && Sorted(less, q)
    ensures r[..p] == q[..p]
  {
    if p > 0 {
      AgreeUpTo(less, s, r, q, p - 1);
      NextAgrees(less, s, r, q, p - 1);
    }
  }

  /** Of two equal elements, the one that came first in `s` comes first in both results. */
  lemma NextAgrees(less: Less, s: seq<Elem>, r: seq<Elem>, q: seq<Elem>, p: nat)
    requires NoDup(s) && p < |r| == |q| && r[..p] == q[..p]
    requires Stable(less, s, r) && Sorted(less, r)
    requires Stable(less, s, q) && Sorted(less, q)
    ensures r[p] == q[p]
  {
    var x, y := r[p], q[p];
    Arranged(s, r);
    Arranged(s, q);
    var i := Place(r, q, p);
    var j := Place(q, r, p);
    assert i > p && j > p ==> Same(less, x, y);
    assert x in r && y in q;
    var a :| 0 <= a < |s| && s[a] == x;
    var b :| 0 <= b < |s| && s[b] == y;
    OrderOf(q, i, p);
    OrderOf(r, j, p);
    hide NoDup, InOrder, Sorted;
  }

  lemma Arranged(s: seq<Elem>, r: seq<Elem>)
    requires NoDup(s) && multiset(r) == multiset(s)
    ensures NoDup(r) && forall x :: x in r <==> x in s
  {
    forall x | x in s
      ensures x in r
    {
      assert x in multiset(s);
    }
    forall x | x in r
      ensures x in s
    {
      assert x in multiset(r);
    }
    forall i, j | 0 <= i < j < |r|
      ensures r[i] != r[j]
    {
      Once(s, r[i]);
      assert r == r[..i] + [r[i]] + r[i + 1..j] + [r[j]] + r[j + 1..];
    }
  }

  lemma {:induction false} Once(s: seq<Elem>, x: Elem)
    requires NoDup(s)
    ensures multiset(s)[x] <= 1
  {
    if s != [] {
      Once(s[1..], x);
      assert s == [s[0]] + s[1..];
    }
  }

  /** The element of `r` after the common front is not in the front of `q`. */
  lemma Place(r: seq<Elem>, q: seq<Elem>, p: nat) returns (i: nat)
    requires p < |r| == |q| && r[..p] == q[..p] && NoDup(r) && (forall x :: x in r <==> x in q)
    ensures p <= i < |q| && q[i] == r[p]
  {
    assert forall k :: 0 <= k < p ==> q[k] == q[..p][k] == r[..p][k] == r[k];
    assert r[p] in r;
    i :| 0 <= i < |q| && q[i] == r[p];
  }

  lemma OrderOf(s: seq<Elem>, i: nat, j: nat)
    requires NoDup(s) && i < |s| && j < |s|
    ensures InOrder(s, s[i], s[j]) <==> i < j
  {
  }

  // ---------- Natural runs ----------

  /** The number of maximal nondecreasing runs. */
  ghost function Runs(less: Less, s: seq<Elem>): nat {
    if |s| <= 1 then |s| else (if Precedes(less, s[1], s[0]) then 1 else 0) + Runs(less, s[1..])
  }

  lemma {:induction false} SortedIsOneRun(less: Less, s: seq<Elem>)
    requires Sorted(less, s)
    ensures Runs(less, s) == if s == [] then 0 else 1
  {
    if |s| > 1 {
      SortedIsOneRun(less, s[1..]);
    }
  }

  lemma {:induction false} OneRunIsSorted(less: Less, s: seq<Elem>)
    requires StrictWeak(less) && Runs(less, s) <= 1
    ensures Sorted(less, s)
  {
    if |s| > 1 {
      SomeRun(less, s[1..]);
      OneRunIsSorted(less, s[1..]);
      forall i, j | 0 <= i < j < |s|
        ensures !Precedes(less, s[j], s[i])
      {
        if i == 0 {
          assert !Precedes(less, s[1], s[0]);
          assert j > 1 ==> !Precedes(less, s[1..][j - 1], s[1..][0]);
        } else {
          assert !Precedes(less, s[1..][j - 1], s[1..][i - 1]);
        }
      }
    }
  }

  lemma {:induction false} SomeRun(less: Less, s: seq<Elem>)
    requires s != []
    ensures Runs(less, s) >= 1
  {
    if |s| > 1 {
      SomeRun(less, s[1..]);
    }
  }

  /** A maximal run at the front counts for one. */
  lemma {:induction false} FrontRun(less: Less, s: seq<Elem>, e: nat)
    requires 0 < e <= |s| && Sorted(less, s[..e]) && (e < |s| ==> Precedes(less, s[e], s[e - 1]))
    ensures Runs(less, s) == 1 + Runs(less, s[e..])
  {
    if e == 1 {
      assert |s| == 1 ==> s[e..] == [];
    } else {
      assert s[1..][..e - 1] == s[..e][1..] && s[1..][e - 1..] == s[e..];
      assert !Precedes(less, s[..e][1], s[..e][0]);
      FrontRun(less, s[1..], e - 1);
    }
  }

  /** Joining two lists makes no new runs. */
  lemma {:induction false} JoinRuns(less: Less, s: seq<Elem>, t: seq<Elem>)
    ensures Runs(less, s + t) <= Runs(less, s) + Runs(less, t)
  {
    if s == [] {
      assert s + t == t;
    } else if |s| == 1 {
      assert (s + t)[1..] == t;
    } else {
      assert (s + t)[1..] == s[1..] + t;
      JoinRuns(less, s[1..], t);
    }
  }

  // ---------- Merging ----------

  /** `s[lo..k]` and `s[k..hi]` are sorted, and nothing before `i` is greater than anything after `k`. */
  ghost predicate Merging(less: Less, s: seq<Elem>, lo: nat, i: nat, k: nat, hi: nat) {
    && lo <= i <= k <= hi <= |s|
    && Sorted(less, s[lo..k]) && Sorted(less, s[k..hi])
    && (forall m, n :: lo <= m < i && k <= n < hi ==> !Precedes(less, s[n], s[m]))
  }

  /** The element at `i` is not greater than the one at `k`: it stays. */
  lemma MergeStay(less: Less, s: seq<Elem>, lo: nat, i: nat, k: nat, hi: nat)
    requires StrictWeak(less) && Merging(less, s, lo, i, k, hi) && i < k < hi && !Precedes(less, s[k], s[i])
    ensures Merging(less, s, lo, i + 1, k, hi)
  {
    forall n | k <= n < hi
      ensures !Precedes(less, s[n], s[i])
    {
      assert n > k ==> !Precedes(less, s[k..hi][n - k], s[k..hi][0]);
    }
  }

  /** The element at `k` is less than the one at `i`: it moves in front of it, past greater elements only. */
  lemma MergeMove(less: Less, s: seq<Elem>, lo: nat, i: nat, k: nat, hi: nat)
    requires StrictWeak(less) && Merging(less, s, lo, i, k, hi) && i < k < hi && Precedes(less, s[k], s[i])
    ensures var r := Exchange(s, i, k, k + 1); Merging(less, r, lo, i + 1, k + 1, hi) && Stable(less, s, r)
    ensures var r := Exchange(s, i, k, k + 1); r[..lo] == s[..lo] && r[hi..] == s[hi..]
  {
    var r := Exchange(s, i, k, k + 1);
    forall m | i <= m < k
      ensures Precedes(less, s[k], s[m])
    {
      assert m > i ==> !Precedes(less, s[lo..k][m - lo], s[lo..k][i - lo]);
    }
    ExchangeSlices(s, lo, i, k, hi);
    hide Stable, Exchange;
    ExchangeStable(less, s, i, k);
    MovedSorted(less, s, lo, i, k);
    TailSorted(less, s[k..hi]);
    forall m, n | lo <= m < i + 1 && k + 1 <= n < hi
      ensures !Precedes(less, r[n], r[m])
    {
      assert s[n] == s[k..hi][n - k] && s[k] == s[k..hi][0];
    }
    hide Sorted, StrictWeak;
  }

  lemma ExchangeSlices(s: seq<Elem>, lo: nat, i: nat, k: nat, hi: nat)
    requires lo <= i < k < hi <= |s|
    ensures
      var r := Exchange(s, i, k, k + 1);
      && |r| == |s| && r[..lo] == s[..lo] && r[hi..] == s[hi..]
      && r[lo..k + 1] == s[lo..i] + [s[k]] + s[i..k]
      && r[k + 1..hi] == s[k..hi][1..]
      && (forall m :: lo <= m < i + 1 ==> r[m] == if m == i then s[k] else s[m])
      && (forall n :: k + 1 <= n < hi ==> r[n] == s[n])
  {
  }

  lemma TailSorted(less: Less, s: seq<Elem>)
    requires Sorted(less, s) && s != []
    ensures Sorted(less, s[1..])
  {
  }

  lemma MovedSorted(less: Less, s: seq<Elem>, lo: nat, i: nat, k: nat)
    requires StrictWeak(less) && lo <= i < k < |s| && Sorted(less, s[lo..k])
    requires forall x :: lo <= x < i ==> !Precedes(less, s[k], s[x])
    requires forall x :: i <= x < k ==> Precedes(less, s[k], s[x])
    ensures Sorted(less, s[lo..i] + [s[k]] + s[i..k])
  {
    var t := s[lo..i] + [s[k]] + s[i..k];
    forall m, n | 0 <= m < n < |t|
      ensures !Precedes(less, t[n], t[m])
    {
      MovedPair(less, s, lo, i, k, m, n);
    }
  }

  lemma MovedPair(less: Less, s: seq<Elem>, lo: nat, i: nat, k: nat, m: nat, n: nat)
    requires StrictWeak(less) && lo <= i < k < |s| && Sorted(less, s[lo..k]) && m < n < k + 1 - lo
    requires forall x :: lo <= x < i ==> !Precedes(less, s[k], s[x])
    requires forall x :: i <= x < k ==> Precedes(less, s[k], s[x])
    ensures var t := s[lo..i] + [s[k]] + s[i..k]; !Precedes(less, t[n], t[m])
  {
    var t := s[lo..i] + [s[k]] + s[i..k];
    var m0 := if m < i - lo then m else m - 1;
    var n0 := if n < i - lo then n else n - 1;
    if m != i - lo && n != i - lo {
      assert t[m] == s[lo..k][m0] && t[n] == s[lo..k][n0];
    }
  }

  /** Once one of the two runs is used up, the whole is sorted. */
  lemma MergeDone(less: Less, s: seq<Elem>, lo: nat, i: nat, k: nat, hi: nat)
    requires Merging(less, s, lo, i, k, hi) && (i == k || k == hi)
    ensures Sorted(less, s[lo..hi])
  {
    var t := s[lo..hi];
    forall m, n | 0 <= m < n < |t|
      ensures !Precedes(less, t[n], t[m])
    {
      if n < k - lo {
        assert t[m] == s[lo..k][m] && t[n] == s[lo..k][n];
      } else if m >= k - lo {
        assert t[m] == s[k..hi][m - (k - lo)] && t[n] == s[k..hi][n - (k - lo)];
      }
    }
  }

  // ---------- A pass over the whole list ----------

  /** The elements between head and tail. */
  ghost function Inner(s: seq<Elem>): seq<Elem> {
    if |s| < 2 then [] else s[1..|s| - 1]
  }

  /** A pass from `s0` has come to position `p` and produced `cnt` sorted runs out of twice as many. */
  ghost predicate Passing(less: Less, s0: seq<Elem>, s: seq<Elem>, p: nat, cnt: nat) {
    && 1 <= p < |s| == |s0| && s[0] == s0[0] && s[p..] == s0[p..]
    && Runs(less, s[1..p]) <= cnt
    && Runs(less, Inner(s0)) == 2 * cnt + Runs(less, s0[p..|s0| - 1])
    && Stable(less, s0, s)
  }

  lemma PassBegins(less: Less, s: seq<Elem>)
    requires |s| >= 2
    ensures Passing(less, s, s, 1, 0)
  {
    assert s[1..1] == [];
    assert s[1..|s| - 1] == Inner(s);
    StableRefl(less, s);
  }

  /** The end of the longest nondecreasing run from `i` on, before `j`. */
  ghost function RunEnd(less: Less, s: seq<Elem>, i: nat, j: nat): (k: nat)
    requires i < j <= |s|
    ensures i < k <= j
    decreases j - i
  {
    if i + 1 == j || Precedes(less, s[i + 1], s[i]) then i + 1 else RunEnd(less, s, i + 1, j)
  }

  /** `s[i..k]` is a run that cannot be made longer before `j`. */
  ghost predicate MaximalRun(less: Less, s: seq<Elem>, i: nat, k: nat, j: nat) {
    i < k <= j < |s| && Sorted(less, s[i..k]) && (k < j ==> Precedes(less, s[k], s[k - 1]))
  }

  lemma {:induction false} RunEndIsMaximal(less: Less, s: seq<Elem>, i: nat, j: nat)
    requires StrictWeak(less) && i < j < |s|
    ensures MaximalRun(less, s, i, RunEnd(less, s, i, j), j)
    decreases j - i
  {
    var k := RunEnd(less, s, i, j);
    if i + 1 < j && !Precedes(less, s[i + 1], s[i]) {
      RunEndIsMaximal(less, s, i + 1, j);
      var t, u := s[i + 1..k], s[i..k];
      forall m, n | 0 <= m < n < |u|
        ensures !Precedes(less, u[n], u[m])
      {
        assert u[0] == s[i] && t[0] == s[i + 1] && u[n] == t[n - 1] && (m > 0 ==> u[m] == t[m - 1]);
        assert m == 0 && n > 1 ==> !Precedes(less, t[n - 1], t[0]);
        assert m > 0 ==> !Precedes(less, t[n - 1], t[m - 1]);
      }
    }
  }

  lemma RunsAfter(less: Less, s: seq<Elem>, i: nat, k: nat, j: nat)
    requires MaximalRun(less, s, i, k, j)
    ensures Runs(less, s[i..j]) == 1 + Runs(less, s[k..j])
  {
    var t := s[i..j];
    assert t[..k - i] == s[i..k] && t[k - i..] == s[k..j];
    FrontRun(less, t, k - i);
  }

  /** Two runs have become one. */
  lemma PassStep(less: Less, s0: seq<Elem>, s: seq<Elem>, p: nat, k: nat, q: nat, t: seq<Elem>, cnt: nat)
    requires Passing(less, s0, s, p, cnt)
    requires MaximalRun(less, s, p, k, |s| - 1) && MaximalRun(less, s, k, q, |s| - 1)
    requires |t| == |s| && t[..p] == s[..p] && t[q..] == s[q..] && Sorted(less, t[p..q]) && Stable(less, s, t)
    ensures Passing(less, s0, t, q, cnt + 1)
  {
    hide Stable, Sorted, Runs, Inner;
    StableTrans(less, s0, s, t);
    SuffixOf(s0, s, p, q, |s| - 1);
    SuffixOf(s0, s, p, p, |s| - 1);
    RunsAfter(less, s, p, k, |s| - 1);
    RunsAfter(less, s, k, q, |s| - 1);
    assert t[1..q] == t[1..p] + t[p..q];
    assert t[1..p] == t[..p][1..] == s[..p][1..] == s[1..p];
    SortedIsOneRun(less, t[p..q]);
    JoinRuns(less, t[1..p], t[p..q]);
    assert t[0] == t[..p][0] == s[..p][0] == s[0];
  }

  lemma SuffixOf(s0: seq<Elem>, s: seq<Elem>, p: nat, q: nat, r: nat)
    requires p <= q <= r <= |s| == |s0| && s[p..] == s0[p..]
    ensures s[q..] == s0[q..] && s[q..r] == s0[q..r] && forall i :: p <= i < |s| ==> s[i] == s0[i]
  {
    assert forall i :: p <= i < |s| ==> s[i] == s[p..][i - p] == s0[p..][i - p] == s0[i];
  }

  /** What a pass leaves behind: half as many runs, rounded up. */
  ghost predicate Passed(less: Less, s0: seq<Elem>, s: seq<Elem>, cnt: nat) {
    && 2 <= |s| == |s0| && s[0] == s0[0] && s[|s| - 1] == s0[|s| - 1]
    && cnt == (Runs(less, Inner(s0)) + 1) / 2 && Runs(less, Inner(s)) <= cnt
    && Stable(less, s0, s)
  }

  lemma PassEnds(less: Less, s0: seq<Elem>, s: seq<Elem>, p: nat, cnt: nat)
    requires Passing(less, s0, s, p, cnt) && p == |s| - 1
    ensures Passed(less, s0, s, cnt)
  {
    hide Stable;
    assert s0[p..|s0| - 1] == [];
    assert s[p] == s[p..][0];
  }

  /** The last run has no partner. */
  lemma PassBreaks(less: Less, s0: seq<Elem>, s: seq<Elem>, p: nat, cnt: nat)
    requires Passing(less, s0, s, p, cnt) && MaximalRun(less, s, p, |s| - 1, |s| - 1)
    ensures Passed(less, s0, s, cnt + 1)
  {
    hide Stable, Sorted;
    var last := |s| - 1;
    SuffixOf(s0, s, p, p, last);
    SortedIsOneRun(less, s[p..last]);
    assert Inner(s) == s[1..p] + s[p..last];
    JoinRuns(less, s[1..p], s[p..last]);
    hide Runs, Inner;
  }

  lemma StableInside(less: Less, s: seq<Elem>, r: seq<Elem>)
    requires Stable(less, s, r) && NoDup(s) && 2 <= |s| == |r| && s[0] == r[0] && s[|s| - 1] == r[|s| - 1]
    ensures Stable(less, Inner(s), Inner(r))
  {
    Arranged(s, r);
    InnerElems(s);
    InnerElems(r);
    var t := Inner(s);
    forall i, j | 0 <= i < j < |t| && Same(less, t[i], t[j])
      ensures InOrder(Inner(r), t[i], t[j])
    {
      assert t[i] == s[i + 1] && t[j] == s[j + 1];
      InnerOrder(r, s[i + 1], s[j + 1]);
    }
    hide Inner, InOrder, Same;
  }

  lemma InnerElems(s: seq<Elem>)
    requires |s| >= 2
    ensures multiset(Inner(s)) == multiset(s) - multiset{s[0]} - multiset{s[|s| - 1]}
  {
    assert s == [s[0]] + Inner(s) + [s[|s| - 1]];
  }

  lemma InnerOrder(r: seq<Elem>, x: Elem, y: Elem)
    requires NoDup(r) && InOrder(r, x, y) && x != r[0] && y != r[|r| - 1]
    ensures InOrder(Inner(r), x, y)
  {
    var p, q :| 0 <= p < q < |r| && r[p] == x && r[q] == y;
    assert Inner(r)[p - 1] == x && Inner(r)[q - 1] == y;
  }
}
