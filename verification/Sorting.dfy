/** Sorted sequences of numbers, as the library sort leaves them. */
module Sorting {

  lemma Without<T>(s: seq<T>, j: nat)
    requires j < |s|
    ensures multiset(s[..j] + s[j + 1..]) == multiset(s) - multiset{s[j]}
  {
    assert s == s[..j] + [s[j]] + s[j + 1..];
  }

  ghost predicate Ascending(s: seq<int>) {
    forall i, j :: 0 <= i < j < |s| ==> s[i] <= s[j]
  }

  /** `sort.Ints`. */
  function SortInts(s: seq<int>): (r: seq<int>)
    ensures Ascending(r) && multiset(r) == multiset(s)
  {
    if s == [] then [] else
    assert s == s[..|s| - 1] + [s[|s| - 1]];
    Insert(SortInts(s[..|s| - 1]), s[|s| - 1])
  }

  function Insert(s: seq<int>, x: int): (r: seq<int>)
    requires Ascending(s)
    ensures Ascending(r) && multiset(r) == multiset(s) + multiset{x}
  {
    if s == [] || s[|s| - 1] <= x then s + [x] else
    var init, last := s[..|s| - 1], s[|s| - 1];
    var r := Insert(init, x);
    InsertBelow(s, x, r);
    r + [last]
  }

  lemma InsertBelow(s: seq<int>, x: int, r: seq<int>)
    requires s != [] && Ascending(s) && x < s[|s| - 1]
    requires multiset(r) == multiset(s[..|s| - 1]) + multiset{x}
    ensures multiset(r + [s[|s| - 1]]) == multiset(s) + multiset{x}
    ensures forall i :: 0 <= i < |r| ==> r[i] <= s[|s| - 1]
  {
    var init, last := s[..|s| - 1], s[|s| - 1];
    assert s == init + [last];
    forall i | 0 <= i < |r|
      ensures r[i] <= last
    {
      assert r[i] in multiset(r);
      assert r[i] in init || r[i] == x;
    }
  }

  lemma {:induction false} AscendingUnique(a: seq<int>, b: seq<int>)
    requires Ascending(a) && Ascending(b) && multiset(a) == multiset(b)
    ensures a == b
  {
    if a == [] || b == [] {
      assert |multiset(a)| == |multiset(b)| == 0;
    } else {
      LeastFirst(a, b);
      LeastFirst(b, a);
      RestAscends(a);
      RestAscends(b);
      hide Ascending;
      AscendingUnique(a[1..], b[1..]);
      assert a == [a[0]] + a[1..] && b == [b[0]] + b[1..];
    }
  }

  lemma RestAscends(s: seq<int>)
    requires s != [] && Ascending(s)
    ensures Ascending(s[1..]) && multiset(s[1..]) == multiset(s) - multiset{s[0]}
  {
    assert s == [s[0]] + s[1..];
  }

  lemma LeastFirst(a: seq<int>, b: seq<int>)
    requires a != [] && b != [] && Ascending(b) && multiset(a) == multiset(b)
    ensures b[0] <= a[0]
  {
    assert a[0] in multiset(b);
    var j :| 0 <= j < |b| && b[j] == a[0];
  }
}
