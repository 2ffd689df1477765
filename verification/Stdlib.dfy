/**
 Heapsort and binary search over an array, with a strcmp()-type comparison.
 Elements are numbered from 1, as in the heap.
 */
module Stdlib {

  import opened Options

  type Compare = (int, int) -> int

  function Call(cmp: Compare, x: int, y: int): int {
    cmp(x, y)
  }

  /** Comparisons that a total preorder could give. */
  ghost predicate Preorder(cmp: Compare) {
    && (forall x, y :: Call(cmp, x, y) > 0 <==> Call(cmp, y, x) < 0)
    && (forall x, y, z :: Call(cmp, x, y) >= 0 && Call(cmp, y, z) >= 0 ==> Call(cmp, x, z) >= 0)
  }

  ghost predicate Sorted(cmp: Compare, s: seq<int>) {
    forall i, j :: 0 <= i < j < |s| ==> Call(cmp, s[j], s[i]) >= 0
  }

  /** Element `i` is not less than element `j`. */
  ghost predicate Ge(cmp: Compare, s: seq<int>, i: nat, j: nat) {
    1 <= i <= |s| && 1 <= j <= |s| && Call(cmp, s[i - 1], s[j - 1]) >= 0
  }

  /** Elements `lo` to `cnt` are no less than their children, except perhaps element `but`. */
  ghost predicate HeapBut(cmp: Compare, s: seq<int>, lo: nat, cnt: nat, but: nat) {
    && (forall j :: 2 <= j <= cnt && lo <= j / 2 && j / 2 != but ==> Ge(cmp, s, j / 2, j))
    && (forall j :: 2 <= j <= cnt && j / 2 == but && lo <= but / 2 ==> Ge(cmp, s, but / 2, j))
  }

  ghost predicate Heap(cmp: Compare, s: seq<int>, lo: nat, cnt: nat) {
    forall j :: 2 <= j <= cnt && lo <= j / 2 ==> Ge(cmp, s, j / 2, j)
  }

  /** Element `m` is not less than any child of element `i`. */
  ghost predicate AboveChildren(cmp: Compare, s: seq<int>, m: nat, i: nat, cnt: nat) {
    (2 * i <= cnt ==> Ge(cmp, s, m, 2 * i)) && (2 * i + 1 <= cnt ==> Ge(cmp, s, m, 2 * i + 1))
  }

  ghost function Swapped(s: seq<int>, i: nat, j: nat): seq<int> {
    if 1 <= i <= |s| && 1 <= j <= |s| then s[i - 1 := s[j - 1]][j - 1 := s[i - 1]] else s
  }

  lemma SwappedKeeps(s: seq<int>, i: nat, j: nat, cnt: nat)
    requires 1 <= i < j <= cnt <= |s|
    ensures multiset(Swapped(s, i, j)[..cnt]) == multiset(s[..cnt])
    ensures |Swapped(s, i, j)| == |s| && Swapped(s, i, j)[cnt..] == s[cnt..]
  {
    var r := Swapped(s, i, j);
    var x, y := s[i - 1], s[j - 1];
    assert s[..cnt] == s[..i - 1] + [x] + s[i..j - 1] + [y] + s[j..cnt];
    assert r[..cnt] == s[..i - 1] + [y] + s[i..j - 1] + [x] + s[j..cnt];
  }

  /** The greater child goes up; only its place can be out of order now. */
  lemma FloatDown(cmp: Compare, s: seq<int>, lo: nat, cnt: nat, i: nat, m: nat)
    requires 1 <= lo <= i && cnt <= |s| && HeapBut(cmp, s, lo, cnt, i)
    requires (m == 2 * i || m == 2 * i + 1) && m <= cnt && Call(cmp, s[m - 1], s[i - 1]) > 0
    requires AboveChildren(cmp, s, m, i, cnt)
    ensures HeapBut(cmp, Swapped(s, i, m), lo, cnt, m)
  {
    var r := Swapped(s, i, m);
    assert |r| == |s| && forall k :: 0 <= k < |s| ==>
      r[k] == if k == i - 1 then s[m - 1] else if k == m - 1 then s[i - 1] else s[k];
    hide Swapped;
    assert m / 2 == i;
    forall j | 2 <= j <= cnt && lo <= j / 2 && j / 2 != m
      ensures Ge(cmp, r, j / 2, j)
    {
      if j == i {
        assert Ge(cmp, s, i / 2, m);
      } else if j / 2 == i {
        assert j == 2 * i || j == 2 * i + 1;
      } else {
        assert Ge(cmp, s, j / 2, j);
      }
    }
    forall j | 2 <= j <= cnt && j / 2 == m && lo <= m / 2
      ensures Ge(cmp, r, m / 2, j)
    {
      assert Ge(cmp, s, m, j);
    }
  }

  lemma NothingBelow(cmp: Compare, s: seq<int>, lo: nat, cnt: nat, i: nat)
    requires HeapBut(cmp, s, lo, cnt, i) && AboveChildren(cmp, s, i, i, cnt)
    ensures Heap(cmp, s, lo, cnt)
  {
    assert forall j :: j / 2 == i ==> j == 2 * i || j == 2 * i + 1;
  }

  /** The root of a heap is the greatest element. */
  lemma {:induction false} RootIsGreatest(cmp: Compare, s: seq<int>, cnt: nat, k: nat)
    requires Preorder(cmp) && Heap(cmp, s, 1, cnt) && 1 <= k <= cnt <= |s|
    ensures Ge(cmp, s, 1, k)
  {
    if k == 1 {
      assert Call(cmp, s[0], s[0]) >= 0;
    } else {
      assert Ge(cmp, s, k / 2, k);
      RootIsGreatest(cmp, s, cnt, k / 2);
    }
  }

  /** Swaps elements `i` and `j`. */
  method Swap(a: array<int>, i: nat, j: nat)
    requires 1 <= i <= a.Length && 1 <= j <= a.Length
    modifies a
    ensures a[..] == Swapped(old(a[..]), i, j)
  {
    a[i - 1], a[j - 1] := a[j - 1], a[i - 1];
  }

  /** heapify(): the element at `start` floats down to where it restores the heap. */
  method Heapify(a: array<int>, start: nat, cnt: nat, cmp: Compare)
    requires Preorder(cmp) && 1 <= start <= cnt <= a.Length && Heap(cmp, a[..], start + 1, cnt)
    modifies a
    ensures Heap(cmp, a[..], start, cnt)
    ensures multiset(a[..cnt]) == old(multiset(a[..cnt])) && a[cnt..] == old(a[cnt..])
  {
    var i := start;
    ghost var s0 := a[..];
    HeapBegins(cmp, s0, start, cnt);
    hide HeapBut, Heap, Swapped, AboveChildren;
    while true
      invariant start <= i <= cnt && HeapBut(cmp, a[..], start, cnt, i)
      invariant multiset(a[..][..cnt]) == multiset(s0[..cnt]) && a[..][cnt..] == s0[cnt..]
      decreases cnt - i
    {
      ghost var s := a[..];
      var max := LargestOf(a, i, cnt, cmp);
      if max == i {
        NothingBelow(cmp, s, start, cnt, i);
        break;
      }
      FloatDown(cmp, s, start, cnt, i, max);
      SwappedKeeps(s, i, max, cnt);
      Swap(a, i, max);
      i := max;
    }
    assert a[..cnt] == a[..][..cnt] && a[cnt..] == a[..][cnt..];
    assert s0[..cnt] == old(a[..cnt]) && s0[cnt..] == old(a[cnt..]);
  }

  lemma HeapBegins(cmp: Compare, s: seq<int>, start: nat, cnt: nat)
    requires Heap(cmp, s, start + 1, cnt) && start >= 1
    ensures HeapBut(cmp, s, start, cnt, start)
  {
  }

  /** The place of the largest among element `i` and its children. */
  method LargestOf(a: array<int>, i: nat, cnt: nat, cmp: Compare) returns (max: nat)
    requires Preorder(cmp) && 1 <= i <= cnt <= a.Length
    ensures max == i || ((max == 2 * i || max == 2 * i + 1) && max <= cnt && Call(cmp, a[max - 1], a[i - 1]) > 0)
    ensures AboveChildren(cmp, a[..], max, i, cnt)
  {
    var left, right := 2 * i, 2 * i + 1;
    max := i;
    if left <= cnt && Call(cmp, a[left - 1], a[max - 1]) > 0 {
      max := left;
    }
    if right <= cnt && Call(cmp, a[right - 1], a[max - 1]) > 0 {
      max := right;
    }
  }

  // ---------- Sorting ----------

  /** The first `cnt` elements are a heap, and the rest are sorted and no less than any of them. */
  ghost predicate Sorting(cmp: Compare, s: seq<int>, cnt: nat) {
    && cnt <= |s| && Heap(cmp, s, 1, cnt) && Sorted(cmp, s[cnt..])
    && forall x, y :: x in s[..cnt] && y in s[cnt..] ==> Call(cmp, y, x) >= 0
  }

  /** Swapping the root to the end of the heap makes the sorted part longer by one. */
  lemma RootOut(cmp: Compare, s: seq<int>, cnt: nat, r: seq<int>)
    requires Preorder(cmp) && Sorting(cmp, s, cnt) && cnt > 1 && r == Swapped(s, 1, cnt)
    ensures Heap(cmp, r, 2, cnt - 1) && |r| == |s| && Sorted(cmp, r[cnt - 1..])
    ensures forall x, y :: x in r[..cnt - 1] && y in r[cnt - 1..] ==> Call(cmp, y, x) >= 0
  {
    assert r[cnt - 1..] == [s[0]] + s[cnt..];
    assert s[0] in s[..cnt];
    RestOfHeap(cmp, s, cnt, r);
    forall x | x in r[..cnt - 1]
      ensures x in s[..cnt] && Call(cmp, s[0], x) >= 0
    {
      var k :| 0 <= k < cnt - 1 && r[k] == x;
      var j := if k == 0 then cnt else k + 1;
      assert s[j - 1] == x && s[..cnt][j - 1] == x;
      RootIsGreatest(cmp, s, cnt, j);
    }
    hide Heap, Preorder, Swapped;
  }

  lemma RestOfHeap(cmp: Compare, s: seq<int>, cnt: nat, r: seq<int>)
    requires Heap(cmp, s, 1, cnt) && 1 < cnt <= |s| && r == Swapped(s, 1, cnt)
    ensures Heap(cmp, r, 2, cnt - 1)
  {
    forall j | 2 <= j <= cnt - 1 && 2 <= j / 2
      ensures Ge(cmp, r, j / 2, j)
    {
      assert Ge(cmp, s, j / 2, j);
    }
  }

  /** What heapify() then does to the heap part does not matter to the rest. */
  lemma HeapAgain(cmp: Compare, r: seq<int>, t: seq<int>, cnt: nat)
    requires cnt <= |r| == |t| && Sorted(cmp, r[cnt..]) && Heap(cmp, t, 1, cnt)
    requires forall x, y :: x in r[..cnt] && y in r[cnt..] ==> Call(cmp, y, x) >= 0
    requires multiset(t[..cnt]) == multiset(r[..cnt]) && t[cnt..] == r[cnt..]
    ensures Sorting(cmp, t, cnt)
  {
    forall x | x in t[..cnt]
      ensures x in r[..cnt]
    {
      assert x in multiset(t[..cnt]);
    }
  }

  lemma WholePermuted(s: seq<int>, t: seq<int>, cnt: nat)
    requires cnt <= |s| == |t| && multiset(t[..cnt]) == multiset(s[..cnt]) && t[cnt..] == s[cnt..]
    ensures multiset(t) == multiset(s)
  {
    assert s == s[..cnt] + s[cnt..] && t == t[..cnt] + t[cnt..];
  }

  /** sort() */
  method Sort(a: array<int>, cmp: Compare)
    requires Preorder(cmp)
    modifies a
    ensures Sorted(cmp, a[..]) && multiset(a[..]) == old(multiset(a[..]))
  {
    ghost var s0 := a[..];
    BuildHeap(a, cmp);
    var i := a.Length;
    assert a[..][i..] == [] && a[..][..i] == a[..];
    hide Heap, Swapped, Preorder;
    while i > 1
      invariant i <= a.Length && Sorting(cmp, a[..], i)
      invariant multiset(a[..]) == multiset(s0)
    {
      i := ExtractMax(a, i, cmp);
    }
    SortingDone(cmp, a[..], i);
  }

  lemma SortingDone(cmp: Compare, s: seq<int>, i: nat)
    requires Sorting(cmp, s, i) && i <= 1
    ensures Sorted(cmp, s)
  {
    assert s == s[..i] + s[i..];
    if i == 1 {
      assert s[0] in s[..1];
      assert forall j :: 1 <= j < |s| ==> s[j] == s[1..][j - 1];
    }
  }

  method BuildHeap(a: array<int>, cmp: Compare)
    requires Preorder(cmp)
    modifies a
    ensures Heap(cmp, a[..], 1, a.Length) && multiset(a[..]) == old(multiset(a[..]))
  {
    ghost var s0 := a[..];
    var n := a.Length;
    var i := n / 2;
    while i > 0
      invariant 0 <= i <= n / 2 && Heap(cmp, a[..], i + 1, n)
      invariant multiset(a[..]) == multiset(s0)
    {
      ghost var s := a[..];
      Heapify(a, i, n, cmp);
      assert s[..n] == s && a[..n] == a[..];
      i := i - 1;
    }
  }

  /** Moves the greatest element of the heap behind it. */
  method ExtractMax(a: array<int>, i: nat, cmp: Compare) returns (cnt: nat)
    requires Preorder(cmp) && 1 < i <= a.Length && Sorting(cmp, a[..], i)
    modifies a
    ensures cnt == i - 1 && Sorting(cmp, a[..], cnt) && multiset(a[..]) == old(multiset(a[..]))
  {
    hide Heap, Swapped, Preorder, Sorting, Sorted;
    ghost var s := a[..];
    Swap(a, 1, i);
    ghost var r := a[..];
    cnt := i - 1;
    RootOut(cmp, s, i, r);
    SwappedKeeps(s, 1, i, i);
    WholePermuted(s, r, i);
    Heapify(a, 1, cnt, cmp);
    assert a[..cnt] == a[..][..cnt] && a[cnt..] == a[..][cnt..];
    HeapAgain(cmp, r, a[..], cnt);
    WholePermuted(r, a[..], cnt);
  }

  /** binary_search() */
  method BinarySearch(key: int, a: array<int>, cmp: Compare) returns (r: Option<nat>)
    requires Preorder(cmp) && Sorted(cmp, a[..])
    ensures r.Some? ==> r.value < a.Length && Call(cmp, key, a[r.value]) == 0
    ensures r.None? ==> forall i :: 0 <= i < a.Length ==> Call(cmp, key, a[i]) != 0
  {
    var first, last := 0, a.Length;
    while first < last
      invariant first <= last <= a.Length
      invariant forall i :: 0 <= i < first ==> Call(cmp, key, a[i]) > 0
      invariant forall i :: last <= i < a.Length ==> Call(cmp, key, a[i]) < 0
    {
      var middle := first + (last - first) / 2;
      var c := Call(cmp, key, a[middle]);
      if c < 0 {
        Beyond(cmp, key, a[..], middle);
        last := middle;
      } else if c > 0 {
        Beyond(cmp, key, a[..], middle);
        first := middle + 1;
      } else {
        return Some(middle);
      }
    }
    r := None;
  }

  lemma Beyond(cmp: Compare, key: int, s: seq<int>, m: nat)
    requires Preorder(cmp) && Sorted(cmp, s) && m < |s|
    ensures Call(cmp, key, s[m]) < 0 ==> forall i :: m <= i < |s| ==> Call(cmp, key, s[i]) < 0
    ensures Call(cmp, key, s[m]) > 0 ==> forall i :: 0 <= i <= m ==> Call(cmp, key, s[i]) > 0
  {
    forall i | 0 <= i < |s|
      ensures m <= i && Call(cmp, key, s[m]) < 0 ==> Call(cmp, key, s[i]) < 0
      ensures i <= m && Call(cmp, key, s[m]) > 0 ==> Call(cmp, key, s[i]) > 0
    {
      assert m < i ==> Call(cmp, s[i], s[m]) >= 0;
      assert i < m ==> Call(cmp, s[m], s[i]) >= 0;
    }
  }
}
