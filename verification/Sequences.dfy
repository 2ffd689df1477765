/**
 Sequences in which no element occurs twice.
 */
module Sequences {

  ghost predicate NoDup<T>(s: seq<T>) {
    forall i, j :: 0 <= i < j < |s| ==> s[i] != s[j]
  }

  lemma NoDupTail<T>(s: seq<T>)
    requires NoDup(s) && s != []
    ensures NoDup(s[1..]) && s[0] !in s[1..]
    ensures forall x :: x in s <==> x == s[0] || x in s[1..]
  {
    assert s == [s[0]] + s[1..];
  }

  lemma NoDupAppend<T>(s: seq<T>, x: T)
    requires NoDup(s) && x !in s
    ensures NoDup(s + [x])
    ensures forall y :: y in s + [x] <==> y == x || y in s
  {
  }

  lemma NoDupFront<T>(x: T, s: seq<T>)
    requires x !in s
    ensures NoDup([x] + s) <==> NoDup(s)
  {
    var s' := [x] + s;
    assert forall i :: 0 <= i < |s| ==> s[i] == s'[i + 1];
  }
}
