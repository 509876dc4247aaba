/** Strings in code point order, and the sorted lists the tools print. */
module Text {

  /** `a` comes no later than `b`. */
  predicate AtMost(a: string, b: string) {
    a == [] || (b != [] && (a[0] < b[0] || (a[0] == b[0] && AtMost(a[1..], b[1..]))))
  }

  lemma {:induction false} Total(a: string, b: string)
    ensures AtMost(a, b) || AtMost(b, a)
  {
    if a != [] && b != [] && a[0] == b[0] {
      Total(a[1..], b[1..]);
    }
  }

  lemma {:induction false} Transitive(a: string, b: string, c: string)
    requires AtMost(a, b) && AtMost(b, c)
    ensures AtMost(a, c)
  {
    if a != [] && a[0] == b[0] && b[0] == c[0] {
      Transitive(a[1..], b[1..], c[1..]);
    }
  }

  lemma {:induction false} Antisymmetric(a: string, b: string)
    requires AtMost(a, b) && AtMost(b, a)
    ensures a == b
  {
    if a != [] && b != [] {
      Antisymmetric(a[1..], b[1..]);
      assert a == [a[0]] + a[1..] && b == [b[0]] + b[1..];
    }
  }

  /** A prefix comes first, and otherwise the first character that differs decides. */
  lemma {:induction false} Lexicographic(p: string, a: string, b: string)
    ensures AtMost(p, p + b)
    ensures a != [] && b != [] && a[0] != b[0] ==> (AtMost(p + a, p + b) <==> a[0] < b[0])
  {
    if p == [] {
      assert p + a == a && p + b == b;
    } else {
      Lexicographic(p[1..], a, b);
      assert (p + a)[1..] == p[1..] + a && (p + b)[1..] == p[1..] + b;
    }
  }

  ghost predicate Sorted(s: seq<string>) {
    forall i, j | 0 <= i < j < |s| :: AtMost(s[i], s[j])
  }

  /** Insert in order, after equal elements. */
  method Insert(s: seq<string>, x: string) returns (r: seq<string>)
    requires Sorted(s)
    ensures Sorted(r) && multiset(r) == multiset(s) + multiset{x}
  {
    hide AtMost;
    var k := |s|;
    while k > 0 && !AtMost(s[k - 1], x)
      invariant 0 <= k <= |s|
      invariant forall j | k <= j < |s| :: AtMost(x, s[j])
    {
      k := k - 1;
      Total(s[k], x);
    }
    r := s[..k] + [x] + s[k..];
    InsertedIsSorted(s, k, x);
    assert s == s[..k] + s[k..];
  }

  lemma InsertedIsSorted(s: seq<string>, k: nat, x: string)
    requires Sorted(s) && k <= |s| && (k > 0 ==> AtMost(s[k - 1], x)) && forall j | k <= j < |s| :: AtMost(x, s[j])
    ensures Sorted(s[..k] + [x] + s[k..])
  {
    hide AtMost;
    forall i | 0 <= i < k ensures AtMost(s[i], x) {
      if i < k - 1 {
        Transitive(s[i], s[k - 1], x);
      }
    }
  }

  method Sort(s: seq<string>) returns (r: seq<string>)
    ensures Sorted(r) && multiset(r) == multiset(s)
  {
    r := [];
    for i := 0 to |s|
      invariant Sorted(r) && multiset(r) == multiset(s[..i])
    {
      assert s[..i + 1] == s[..i] + [s[i]];
      r := Insert(r, s[i]);
    }
    assert s[..|s|] == s;
  }

  /** A sorted list is determined by its multiset. */
  lemma {:induction false} SortedUnique(a: seq<string>, b: seq<string>)
    requires Sorted(a) && Sorted(b) && multiset(a) == multiset(b)
    ensures a == b
  {
    hide AtMost;
    SameLength(a, b);
    if a != [] {
      LeastFirst(a, b[0]);
      LeastFirst(b, a[0]);
      Antisymmetric(a[0], b[0]);
      DropFirst(a);
      DropFirst(b);
      SortedUnique(a[1..], b[1..]);
    }
  }

  lemma DropFirst<T>(s: seq<T>)
    requires s != []
    ensures s == [s[0]] + s[1..] && multiset(s[1..]) == multiset(s) - multiset{s[0]}
  {
    assert s == [s[0]] + s[1..];
    assert multiset(s) == multiset{s[0]} + multiset(s[1..]);
  }

  lemma SameLength<T>(a: seq<T>, b: seq<T>)
    requires multiset(a) == multiset(b)
    ensures |a| == |b| && forall x :: x in a <==> x in b
  {
    assert |multiset(a)| == |multiset(b)|;
    assert forall x :: x in multiset(a) <==> x in a;
    assert forall x :: x in multiset(b) <==> x in b;
  }

  lemma LeastFirst(a: seq<string>, x: string)
    requires Sorted(a) && a != [] && (x in a || x in multiset(a))
    ensures AtMost(a[0], x)
  {
    var i :| 0 <= i < |a| && a[i] == x;
    Reflexive(x);
  }

  lemma {:induction false} Reflexive(a: string)
    ensures AtMost(a, a)
  {
    if a != [] {
      Reflexive(a[1..]);
    }
  }
}
