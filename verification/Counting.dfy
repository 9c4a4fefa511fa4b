/** Counting the elements of a sequence that satisfy a predicate.  The histogram's cells, its
    cumulative counters and the ranks of a sorted sample are all such counts. */
module Counting {

  ghost function Count(s: seq<int>, p: int -> bool): (n: nat)
    ensures n <= |s|
  {
    if s == [] then 0 else Count(s[..|s| - 1], p) + (if p(s[|s| - 1]) then 1 else 0)
  }

  lemma CountSnoc(s: seq<int>, x: int, p: int -> bool)
    ensures Count(s + [x], p) == Count(s, p) + (if p(x) then 1 else 0)
  {}

  lemma {:induction false} CountConcat(a: seq<int>, b: seq<int>, p: int -> bool)
    ensures Count(a + b, p) == Count(a, p) + Count(b, p)
  {
    if b == [] {
      assert a + b == a;
    } else {
      var m := |b| - 1;
      assert a + b == (a + b[..m]) + [b[m]];
      CountSnoc(a + b[..m], b[m], p);
      CountConcat(a, b[..m], p);
    }
  }

  /** Two predicates that exclude each other split the count of their union. */
  lemma {:induction false} CountSplit(s: seq<int>, p: int -> bool, q: int -> bool, union: int -> bool)
    requires forall x | x in s :: union(x) == (p(x) || q(x)) && !(p(x) && q(x))
    ensures Count(s, union) == Count(s, p) + Count(s, q)
  {
    if s != [] {
      var last := s[|s| - 1];
      assert last in s;
      assert union(last) == (p(last) || q(last));
      CountSplit(s[..|s| - 1], p, q, union);
    }
  }

  lemma {:induction false} CountMonotone(s: seq<int>, p: int -> bool, q: int -> bool)
    requires forall x | x in s :: p(x) ==> q(x)
    ensures Count(s, p) <= Count(s, q)
  {
    if s != [] {
      var last := s[|s| - 1];
      assert last in s;
      assert p(last) ==> q(last);
      CountMonotone(s[..|s| - 1], p, q);
    }
  }

  lemma {:induction false} CountNone(s: seq<int>, p: int -> bool)
    requires forall x | x in s :: !p(x)
    ensures Count(s, p) == 0
  {
    if s != [] {
      var last := s[|s| - 1];
      assert last in s;
      assert !p(last);
      CountNone(s[..|s| - 1], p);
    }
  }

  lemma {:induction false} CountAll(s: seq<int>, p: int -> bool)
    requires forall x | x in s :: p(x)
    ensures Count(s, p) == |s|
  {
    if s != [] {
      var last := s[|s| - 1];
      assert last in s;
      assert p(last);
      CountAll(s[..|s| - 1], p);
    }
  }

  /** A count does not depend on the order of the sequence. */
  lemma {:induction false} CountPermutation(a: seq<int>, b: seq<int>, p: int -> bool)
    requires multiset(a) == multiset(b)
    ensures Count(a, p) == Count(b, p)
    decreases |a|
  {
    if a == [] {
      assert b == [] by {
        assert |multiset(a)| == |multiset(b)|;
      }
    } else {
      var m := |a| - 1;
      var x := a[m];
      assert a == a[..m] + [x];
      assert x in multiset(b);
      var j :| 0 <= j < |b| && b[j] == x;
      var rest := b[..j] + b[j + 1..];
      CountWithout(b, j, p);
      assert multiset(a) == multiset(a[..m]) + multiset([x]);
      assert multiset(a[..m]) == multiset(a) - multiset([x]) == multiset(rest);
      CountPermutation(a[..m], rest, p);
    }
  }

  lemma CountWithout(b: seq<int>, j: nat, p: int -> bool)
    requires j < |b|
    ensures var rest := b[..j] + b[j + 1..];
      && multiset(b) - multiset([b[j]]) == multiset(rest)
      && Count(b, p) == Count(rest, p) + (if p(b[j]) then 1 else 0)
  {
    var x := b[j];
    assert b == (b[..j] + [x]) + b[j + 1..];
    CountConcat(b[..j] + [x], b[j + 1..], p);
    CountSnoc(b[..j], x, p);
    CountConcat(b[..j], b[j + 1..], p);
  }

  ghost predicate Sorted(s: seq<int>) {
    forall i, j :: 0 <= i < j < |s| ==> s[i] <= s[j]
  }

  ghost function LessThan(d: int): int -> bool { x => x < d }
  ghost function AtMost(d: int): int -> bool { x => x <= d }

  /** The element of rank `rank` (from 1) of a sorted sequence. */
  lemma SortedRank(s: seq<int>, rank: nat)
    requires Sorted(s) && 1 <= rank <= |s|
    ensures Count(s, LessThan(s[rank - 1])) < rank <= Count(s, AtMost(s[rank - 1]))
  {
    hide Count;
    var d := s[rank - 1];
    assert s == s[..rank - 1] + s[rank - 1..];
    CountConcat(s[..rank - 1], s[rank - 1..], LessThan(d));
    CountNone(s[rank - 1..], LessThan(d));
    assert s == s[..rank] + s[rank..];
    CountConcat(s[..rank], s[rank..], AtMost(d));
    CountAll(s[..rank], AtMost(d));
  }
}
