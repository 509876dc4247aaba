/** Distinct and ascending lists and initial segments of the naturals, and how many elements they have. */
module Counting {

  ghost predicate Distinct<T>(s: seq<T>) {
    forall i, j | 0 <= i < j < |s| :: s[i] != s[j]
  }

  ghost predicate Ascending(s: seq<nat>) {
    forall i, j | 0 <= i < j < |s| :: s[i] < s[j]
  }

  ghost function SetOf<T>(s: seq<T>): set<T> {
    set x | x in s
  }

  ghost function UpTo(n: nat): (r: set<nat>)
    ensures forall i :: i in r <==> 0 <= i < n
  {
    if n == 0 then {} else UpTo(n - 1) + {n - 1}
  }

  lemma {:induction false} UpToSize(n: nat)
    ensures |UpTo(n)| == n
  {
    if n > 0 {
      UpToSize(n - 1);
      var rest := UpTo(n - 1);
      assert UpTo(n) == rest + {n - 1} && n - 1 !in rest;
    }
  }

  lemma {:induction false} DistinctCount(s: seq<nat>)
    requires Distinct(s)
    ensures |SetOf(s)| == |s|
  {
    if s != [] {
      var last, rest := s[|s| - 1], s[..|s| - 1];
      assert s == rest + [last];
      DistinctCount(rest);
      assert SetOf(s) == SetOf(rest) + {last};
      assert last !in rest;
    }
  }

  lemma SmallerSize(a: set<nat>, b: set<nat>)
    requires a <= b
    ensures |a| <= |b|
  {
    if a != {} {
      var x :| x in a;
      SmallerSize(a - {x}, b - {x});
    }
  }

  lemma SameSize(a: set<nat>, b: set<nat>)
    requires a <= b && |a| == |b|
    ensures a == b
  {
    forall x | x in b ensures x in a {
      if x !in a {
        SmallerSize(a, b - {x});
      }
    }
  }

  lemma DistinctBelow(s: seq<nat>, n: nat)
    requires Distinct(s) && forall c | c in s :: c < n
    ensures |s| <= n
  {
    DistinctCount(s);
    UpToSize(n);
    SmallerSize(SetOf(s), UpTo(n));
  }

  /** As many distinct numbers below `n` as there are cover them all. */
  lemma DistinctCovers(s: seq<nat>, k: nat)
    requires Distinct(s) && (forall c | c in s :: c < |s|) && k < |s|
    ensures k in s
  {
    DistinctCount(s);
    UpToSize(|s|);
    SameSize(SetOf(s), UpTo(|s|));
    assert k in SetOf(s);
  }
}
