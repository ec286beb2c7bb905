/** Sorting by key: the one ascending enumeration of a finite collection with
    distinct keys, which is what makes hash-map iteration order unobservable. */
module OrderedSets {

  ghost predicate AscendingBy<T>(s: seq<T>, key: T -> int) {
    forall i, j | 0 <= i < j < |s| :: key(s[i]) < key(s[j])
  }

  ghost predicate Ascending(s: seq<int>) {
    forall i, j | 0 <= i < j < |s| :: s[i] < s[j]
  }

  ghost predicate DistinctKeys<T>(s: seq<T>, key: T -> int) {
    forall i, j | 0 <= i < j < |s| :: key(s[i]) != key(s[j])
  }

  function Elements<T>(s: seq<T>): set<T> {
    set x | x in s
  }

  /** Some element of a nonempty set. */
  ghost function Pick<T>(xs: set<T>): (x: T)
    requires xs != {}
    ensures x in xs
  {
    var x :| x in xs;
    x
  }

  ghost predicate IsLeast(m: int, xs: set<int>) {
    m in xs && forall x | x in xs :: m <= x
  }

  lemma {:induction false} LeastExists(xs: set<int>)
    requires xs != {}
    ensures exists m :: IsLeast(m, xs)
  {
    var x := Pick(xs);
    var rest := xs - {x};
    if rest == {} {
      assert xs == {x};
      assert IsLeast(x, xs);
    } else {
      LeastExists(rest);
      var m :| IsLeast(m, rest);
      assert xs == rest + {x};
      assert IsLeast(if m <= x then m else x, xs);
    }
  }

  /** The elements of `xs` in ascending order. */
  ghost function Sorted(xs: set<int>): (s: seq<int>)
    ensures Ascending(s)
    ensures Elements(s) == xs
    ensures |s| == |xs|
  {
    if xs == {} then
      []
    else
      LeastExists(xs);
      var m :| IsLeast(m, xs);
      var rest := Sorted(xs - {m});
      PrependLeast(m, rest, xs);
      [m] + rest
  }

  lemma PrependLeast(m: int, rest: seq<int>, xs: set<int>)
    requires IsLeast(m, xs)
    requires Ascending(rest) && Elements(rest) == xs - {m}
    ensures Ascending([m] + rest) && Elements([m] + rest) == xs
  {
    var s := [m] + rest;
    forall i, j | 0 <= i < j < |s|
      ensures s[i] < s[j]
    {
      assert s[j] == rest[j - 1] && rest[j - 1] in Elements(rest);
    }
    forall x
      ensures x in Elements(s) <==> x in xs
    {
      if x in xs && x != m {
        assert x in Elements(rest);
        var i :| 0 <= i < |rest| && rest[i] == x;
        assert s[i + 1] == x;
      }
      if x in Elements(s) && x != m {
        assert x in Elements(rest);
      }
      assert s[0] == m;
    }
  }

  lemma NonEmptyIfMember<T>(a: seq<T>, b: seq<T>)
    requires forall x :: x in a ==> x in b
    ensures |a| > 0 ==> |b| > 0
  {
    if |a| > 0 {
      assert a[0] in b;
    }
  }

  /** Two ascending sequences with the same elements are the same sequence. */
  lemma {:induction false} AscendingByUnique<T>(a: seq<T>, b: seq<T>, key: T -> int)
    requires AscendingBy(a, key) && AscendingBy(b, key)
    requires forall x :: x in a <==> x in b
    ensures a == b
  {
    NonEmptyIfMember(a, b);
    NonEmptyIfMember(b, a);
    if |a| > 0 {
      assert a[0] in b;
      var k :| 0 <= k < |b| && b[k] == a[0];
      assert b[0] in a;
      var l :| 0 <= l < |a| && a[l] == b[0];
      assert k == 0;
      forall x
        ensures x in a[1..] <==> x in b[1..]
      {
        TailMembers(a, key, x);
        TailMembers(b, key, x);
      }
      AscendingByUnique(a[1..], b[1..], key);
      assert a == [a[0]] + a[1..] && b == [b[0]] + b[1..];
    }
  }

  lemma TailMembers<T>(a: seq<T>, key: T -> int, x: T)
    requires a != [] && AscendingBy(a, key)
    ensures x in a[1..] <==> x in a && x != a[0]
  {
    if x in a && x != a[0] {
      var i :| 0 <= i < |a| && a[i] == x;
      assert a[1..][i - 1] == x;
    }
    if x in a[1..] {
      var i :| 0 <= i < |a[1..]| && a[1..][i] == x;
      assert key(a[0]) < key(a[i + 1]);
    }
  }

  lemma AscendingUnique(a: seq<int>, b: seq<int>)
    requires Ascending(a) && Ascending(b)
    requires Elements(a) == Elements(b)
    ensures a == b
  {
    forall x
      ensures x in a <==> x in b
    {
      assert x in a <==> x in Elements(a);
      assert x in b <==> x in Elements(b);
    }
    AscendingByUnique(a, b, (x: int) => x);
  }

  /** Where `x` goes among the ascending `s`: everything before is smaller, everything after larger. */
  lemma InsertAscending<T>(s: seq<T>, x: T, k: nat, key: T -> int)
    requires AscendingBy(s, key) && k <= |s|
    requires forall i | 0 <= i < k :: key(s[i]) < key(x)
    requires k < |s| ==> key(x) < key(s[k])
    ensures AscendingBy(s[..k] + [x] + s[k..], key)
  {
    var t := s[..k] + [x] + s[k..];
    forall i, j | 0 <= i < j < |t|
      ensures key(t[i]) < key(t[j])
    {
      assert t[i] == if i < k then s[i] else if i == k then x else s[i - 1];
      assert t[j] == if j < k then s[j] else if j == k then x else s[j - 1];
      assert i == k && k + 1 < j ==> key(s[k]) < key(s[j - 1]);
    }
  }

  lemma InsertMembers<T>(s: seq<T>, x: T, k: nat)
    requires k <= |s|
    ensures forall y :: y in s[..k] + [x] + s[k..] <==> y in s || y == x
  {
    assert s == s[..k] + s[k..];
  }

  /** Sorts by key; the standard library's `sort_by_key` on distinct keys. */
  method SortByKey<T>(xs: seq<T>, key: T -> int) returns (s: seq<T>)
    requires DistinctKeys(xs, key)
    ensures AscendingBy(s, key)
    ensures forall x :: x in s <==> x in xs
  {
    s := [];
    for n := 0 to |xs|
      invariant AscendingBy(s, key)
      invariant forall x :: x in s <==> x in xs[..n]
    {
      var k := 0;
      while k < |s| && key(s[k]) < key(xs[n])
        invariant 0 <= k <= |s|
        invariant forall i | 0 <= i < k :: key(s[i]) < key(xs[n])
      {
        k := k + 1;
      }
      if k < |s| {
        assert s[k] in xs[..n];
      }
      InsertAscending(s, xs[n], k, key);
      InsertMembers(s, xs[n], k);
      assert xs[..n + 1] == xs[..n] + [xs[n]];
      s := s[..k] + [xs[n]] + s[k..];
    }
    assert xs[..|xs|] == xs;
  }
}
