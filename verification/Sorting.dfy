/** The tools' qsort calls, for any comparison that is a total preorder. */
module Sorting {
  ghost predicate TotalOrder<T(!new)>(leq: (T, T) -> bool) {
    && (forall a, b :: leq(a, b) || leq(b, a))
    && (forall a, b, c :: leq(a, b) && leq(b, c) ==> leq(a, c))
  }

  ghost predicate OrderedBy<T>(leq: (T, T) -> bool, s: seq<T>) {
    forall i, j :: 0 <= i < j < |s| ==> leq(s[i], s[j])
  }

  lemma Inserted<T(!new)>(leq: (T, T) -> bool, r: seq<T>, k: nat, x: T)
    requires TotalOrder(leq) && OrderedBy(leq, r) && k <= |r|
    requires (k > 0 ==> leq(r[k - 1], x)) && forall j :: k <= j < |r| ==> leq(x, r[j])
    ensures OrderedBy(leq, r[..k] + [x] + r[k..])
  {
    var e := r[..k] + [x] + r[k..];
    forall i, j | 0 <= i < j < |e| ensures leq(e[i], e[j]) {
      assert e[i] == if i < k then r[i] else if i == k then x else r[i - 1];
      assert e[j] == if j < k then r[j] else if j == k then x else r[j - 1];
      if i < k && j == k && i < k - 1 { assert leq(r[i], r[k - 1]) && leq(r[k - 1], x); }
    }
  }

  lemma InsertedMultiset<T>(r: seq<T>, k: nat, x: T)
    requires k <= |r|
    ensures multiset(r[..k] + [x] + r[k..]) == multiset(r) + multiset{x}
  {
    assert r == r[..k] + r[k..];
  }

  /** Any sorting will do; this one inserts. */
  method Sort<T(!new)>(leq: (T, T) -> bool, s: seq<T>) returns (r: seq<T>)
    requires TotalOrder(leq)
    ensures OrderedBy(leq, r) && multiset(r) == multiset(s)
  {
    r := [];
    for i := 0 to |s|
      invariant OrderedBy(leq, r) && multiset(r) == multiset(s[..i])
    {
      var k: nat := |r|;
      while k > 0 && !leq(r[k - 1], s[i])
        invariant k <= |r| && forall j :: k <= j < |r| ==> leq(s[i], r[j])
      {
        k := k - 1;
      }
      assert s[..i + 1] == s[..i] + [s[i]];
      Inserted(leq, r, k, s[i]);
      InsertedMultiset(r, k, s[i]);
      r := r[..k] + [s[i]] + r[k..];
    }
    assert s[..|s|] == s;
  }

  lemma SameElements<T>(a: seq<T>, b: seq<T>)
    requires multiset(a) == multiset(b)
    ensures |a| == |b| && forall x :: x in a <==> x in b
  {
    assert |a| == |multiset(a)| && |b| == |multiset(b)|;
    forall x ensures x in a <==> x in b {
      assert x in a <==> x in multiset(a);
      assert x in b <==> x in multiset(b);
    }
  }

  /** An element counted twice stands in two places, and the other way round. */
  lemma {:induction false} TwoPlaces<T>(s: seq<T>, x: T)
    ensures multiset(s)[x] >= 2 <==> exists i, j :: 0 <= i < j < |s| && s[i] == x && s[j] == x
  {
    if s != [] {
      var n := |s| - 1;
      var t := s[..n];
      TwoPlaces(t, x);
      assert s == t + [s[n]];
      if i, j :| 0 <= i < j < |s| && s[i] == x && s[j] == x {
        assert t[i] == x && x in t;
        if j < n { assert t[j] == x; }
      }
      if i, j :| 0 <= i < j < |t| && t[i] == x && t[j] == x { assert s[i] == x && s[j] == x; }
      if x in t && s[n] == x {
        var i :| 0 <= i < |t| && t[i] == x;
        assert s[i] == x && s[n] == x;
      }
    }
  }
}
