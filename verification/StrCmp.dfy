/** The byte order of strcmp, and the one ascending listing of a finite set. */
module StrCmp {
  import opened Bytes
  import opened Sorting

  /** strcmp(a, b) < 0 for NUL-free a and b. */
  predicate Lt(a: bytes, b: bytes) {
    if b == [] then false
    else if a == [] then true
    else a[0] < b[0] || (a[0] == b[0] && Lt(a[1..], b[1..]))
  }

  predicate Leq(a: bytes, b: bytes) { a == b || Lt(a, b) }

  lemma {:induction false} LtIrreflexive(a: bytes)
    ensures !Lt(a, a)
  {
    if a != [] { LtIrreflexive(a[1..]); }
  }

  lemma {:induction false} LtTotal(a: bytes, b: bytes)
    ensures a == b || Lt(a, b) || Lt(b, a)
  {
    if a != [] && b != [] && a[0] == b[0] {
      LtTotal(a[1..], b[1..]);
      if a[1..] == b[1..] { assert [a[0]] + a[1..] == [b[0]] + b[1..]; }
    }
  }

  lemma {:induction false} LtTransitive(a: bytes, b: bytes, c: bytes)
    requires Lt(a, b) && Lt(b, c)
    ensures Lt(a, c)
  {
    if a != [] && a[0] == b[0] == c[0] { LtTransitive(a[1..], b[1..], c[1..]); }
  }

  lemma LtAsymmetric(a: bytes, b: bytes)
    requires Lt(a, b)
    ensures !Lt(b, a) && a != b
  {
    LtIrreflexive(a);
    if Lt(b, a) { LtTransitive(a, b, a); }
  }

  /** A proper prefix sorts first: a directory before everything below it. */
  lemma {:induction false} PrefixLt(a: bytes, b: bytes)
    requires a < b
    ensures Lt(a, b)
  {
    if a != [] {
      assert a[0] == b[..|a|][0];
      assert a[1..] == b[1..][..|a| - 1];
      PrefixLt(a[1..], b[1..]);
    }
  }

  /* ---- ascending sequences ------------------------------------------- */

  ghost predicate Ascending(s: seq<bytes>) {
    forall i, j :: 0 <= i < j < |s| ==> Lt(s[i], s[j])
  }

  ghost predicate Sorted(s: seq<bytes>) {
    forall i, j :: 0 <= i < j < |s| ==> Leq(s[i], s[j])
  }

  lemma AscendingDistinct(s: seq<bytes>, i: nat, j: nat)
    requires Ascending(s) && i < |s| && j < |s| && i != j
    ensures s[i] != s[j]
  {
    if i < j { LtAsymmetric(s[i], s[j]); } else { LtAsymmetric(s[j], s[i]); }
  }

  /** One set has one ascending listing, whatever sort produced it. */
  lemma {:induction false} AscendingUnique(s: seq<bytes>, t: seq<bytes>)
    requires Ascending(s) && Ascending(t)
    requires forall x :: x in s <==> x in t
    ensures s == t
  {
    assert t != [] ==> t[0] in t;
    if s == [] {
    } else {
      assert s[0] in t && t != [];
      assert t[0] in s;
      HeadIsLeast(s, t[0]);
      HeadIsLeast(t, s[0]);
      if Lt(s[0], t[0]) { LtAsymmetric(s[0], t[0]); }
      assert s[0] == t[0];
      forall x ensures x in s[1..] <==> x in t[1..] {
        TailMembers(s, x);
        TailMembers(t, x);
      }
      AscendingUnique(s[1..], t[1..]);
      assert s == [s[0]] + s[1..] && t == [t[0]] + t[1..];
    }
  }

  lemma HeadIsLeast(s: seq<bytes>, x: bytes)
    requires Ascending(s) && x in s
    ensures Leq(s[0], x)
  {
    var i :| 0 <= i < |s| && s[i] == x;
    if i > 0 { assert Lt(s[0], s[i]); }
  }

  lemma TailMembers(s: seq<bytes>, x: bytes)
    requires Ascending(s) && s != []
    ensures x in s[1..] <==> x in s && x != s[0]
  {
    if x in s[1..] {
      var i :| 0 <= i < |s[1..]| && s[1..][i] == x;
      AscendingDistinct(s, 0, i + 1);
    }
    if x in s && x != s[0] {
      var i :| 0 <= i < |s| && s[i] == x;
      assert s[1..][i - 1] == x;
    }
  }

  /** The ascending listing of a finite set. */
  ghost function Listing(s: set<bytes>): (r: seq<bytes>)
    ensures Ascending(r)
    ensures forall x :: x in r <==> x in s
    ensures |r| == |s|
    decreases |s|
  {
    if s == {} then []
    else
      var m := Least(s);
      var rest := Listing(s - {m});
      AscendingCons(m, rest);
      ConsMembers(m, rest, s);
      [m] + rest
  }

  lemma AscendingCons(m: bytes, rest: seq<bytes>)
    requires Ascending(rest) && forall x :: x in rest ==> Lt(m, x)
    ensures Ascending([m] + rest)
  {
    hide Lt;
    var r := [m] + rest;
    forall i, j | 0 <= i < j < |r| ensures Lt(r[i], r[j]) {
      assert r[j] == rest[j - 1];
    }
  }

  lemma ConsMembers(m: bytes, rest: seq<bytes>, s: set<bytes>)
    requires m in s && forall x :: x in rest <==> x in s - {m}
    ensures forall x :: x in [m] + rest <==> x in s
  {
  }

  ghost function Least(s: set<bytes>): (m: bytes)
    requires s != {}
    ensures m in s && forall x :: x in s && x != m ==> Lt(m, x)
  {
    LeastExists(s);
    var m :| m in s && forall x :: x in s && x != m ==> Lt(m, x);
    m
  }

  lemma {:induction false} LeastExists(s: set<bytes>)
    requires s != {}
    ensures exists m :: m in s && forall x :: x in s && x != m ==> Lt(m, x)
    decreases |s|
  {
    var c :| c in s;
    if s != {c} {
      var rest := s - {c};
      assert s == rest + {c};
      LeastExists(rest);
      var m :| m in rest && forall x :: x in rest && x != m ==> Lt(m, x);
      LtTotal(c, m);
      if Lt(c, m) {
        forall x | x in s && x != c ensures Lt(c, x) {
          if x != m { LtTransitive(c, m, x); }
        }
      } else {
        assert Lt(m, c);
        assert forall x :: x in s && x != m ==> Lt(m, x);
      }
    } else {
      assert forall x :: x in s && x != c ==> Lt(c, x);
    }
  }

  /* ---- sorting by a byte-string key ------------------------------------ */

  function KeysBy<T>(key: T -> bytes, s: seq<T>): (r: seq<bytes>)
    ensures |r| == |s|
    ensures forall i :: 0 <= i < |s| ==> r[i] == key(s[i])
  {
    if s == [] then [] else KeysBy(key, s[..|s| - 1]) + [key(s[|s| - 1])]
  }

  ghost predicate Distinct(s: seq<bytes>) {
    forall a, b :: 0 <= a < b < |s| ==> s[a] != s[b]
  }

  lemma KeysByConcat<T>(key: T -> bytes, a: seq<T>, b: seq<T>)
    ensures KeysBy(key, a + b) == KeysBy(key, a) + KeysBy(key, b)
  {
    assert forall i :: 0 <= i < |a| + |b| ==> KeysBy(key, a + b)[i] == (KeysBy(key, a) + KeysBy(key, b))[i];
  }

  /** The tools' qsort calls: cmp_str, cmp_entry, cmp_child and crs_cmp order by
      strcmp of one key. Distinct keys come out strictly ascending. */
  method SortBy<T(!new)>(key: T -> bytes, s: seq<T>) returns (r: seq<T>)
    ensures Sorted(KeysBy(key, r))
    ensures multiset(r) == multiset(s)
    ensures Distinct(KeysBy(key, s)) <==> Ascending(KeysBy(key, r))
  {
    hide KeysBy, Lt, Leq;
    var leq := (a: T, b: T) => Leq(key(a), key(b));
    forall a: bytes, b: bytes, c: bytes
      ensures (Leq(a, b) || Leq(b, a)) && (Leq(a, b) && Leq(b, c) ==> Leq(a, c))
    {
      LeqOrder(a, b, c);
    }
    r := Sort(leq, s);
    assert Sorted(KeysBy(key, r)) by {
      forall i, j | 0 <= i < j < |r| ensures Leq(KeysBy(key, r)[i], KeysBy(key, r)[j]) { assert leq(r[i], r[j]); }
    }
    DistinctMoved(key, s, r);
    DistinctMoved(key, r, s);
    DistinctAscending(KeysBy(key, r));
  }

  lemma LeqOrder(a: bytes, b: bytes, c: bytes)
    ensures (Leq(a, b) || Leq(b, a)) && (Leq(a, b) && Leq(b, c) ==> Leq(a, c))
  {
    hide Lt;
    LtTotal(a, b);
    if Leq(a, b) && Leq(b, c) { LeqTransitive(a, b, c); }
  }

  lemma DistinctAscending(s: seq<bytes>)
    requires Sorted(s)
    ensures Distinct(s) <==> Ascending(s)
  {
    hide Lt;
    if Distinct(s) { SortedAscending(s); }
    if Ascending(s) {
      forall i, j | 0 <= i < j < |s| ensures s[i] != s[j] { AscendingDistinct(s, i, j); }
    }
  }

  /** Distinct keys stay distinct in any order. */
  lemma DistinctMoved<T>(key: T -> bytes, a: seq<T>, b: seq<T>)
    requires multiset(a) == multiset(b)
    ensures Distinct(KeysBy(key, a)) ==> Distinct(KeysBy(key, b))
  {
    hide KeysBy;
    SameElements(a, b);
    if !Distinct(KeysBy(key, b)) {
      var i, j :| 0 <= i < j < |b| && KeysBy(key, b)[i] == KeysBy(key, b)[j];
      if b[i] == b[j] {
        TwoPlaces(b, b[i]);
        TwoPlaces(a, b[i]);
        var k, l :| 0 <= k < l < |a| && a[k] == b[i] && a[l] == b[i];
        assert KeysBy(key, a)[k] == KeysBy(key, a)[l];
      } else {
        assert b[i] in a && b[j] in a;
        var k :| 0 <= k < |a| && a[k] == b[i];
        var l :| 0 <= l < |a| && a[l] == b[j];
        assert KeysBy(key, a)[k] == KeysBy(key, a)[l];
      }
    }
  }

  lemma SameKeys<T>(key: T -> bytes, a: seq<T>, b: seq<T>, k: bytes)
    requires multiset(a) == multiset(b)
    ensures k in KeysBy(key, a) <==> k in KeysBy(key, b)
  {
    hide KeysBy;
    if k in KeysBy(key, a) { MovedKey(key, a, b, k); }
    if k in KeysBy(key, b) { MovedKey(key, b, a, k); }
  }

  lemma MovedKey<T>(key: T -> bytes, a: seq<T>, b: seq<T>, k: bytes)
    requires multiset(a) == multiset(b) && k in KeysBy(key, a)
    ensures k in KeysBy(key, b)
  {
    hide KeysBy;
    var i :| 0 <= i < |a| && KeysBy(key, a)[i] == k;
    assert a[i] in multiset(b);
    var j :| 0 <= j < |b| && b[j] == a[i];
    assert KeysBy(key, b)[j] == k;
  }

  /** sort of plain strings */
  method SortStrings(s: seq<bytes>) returns (r: seq<bytes>)
    ensures Sorted(r)
    ensures multiset(r) == multiset(s)
  {
    hide KeysBy, Sorted;
    var key := (x: bytes) => x;
    r := SortBy(key, s);
    assert KeysBy(key, r) == r;
  }

  lemma SortedAscending(s: seq<bytes>)
    requires Sorted(s) && forall k :: 1 <= k < |s| ==> s[k - 1] != s[k]
    ensures Ascending(s)
  {
    hide Lt;
    forall i, j | 0 <= i < j < |s| ensures Lt(s[i], s[j]) {
      assert Leq(s[i], s[i + 1]) && s[(i + 1) - 1] != s[i + 1];
      if i + 1 < j {
        assert Leq(s[i + 1], s[j]);
        if s[i + 1] != s[j] { LtTransitive(s[i], s[i + 1], s[j]); }
      }
    }
  }

  lemma LeqTransitive(a: bytes, b: bytes, c: bytes)
    requires Leq(a, b) && Leq(b, c)
    ensures Leq(a, c)
  {
    if Lt(a, b) && Lt(b, c) { LtTransitive(a, b, c); }
  }

  /** The in-place dedupe after a sort: repeats of the last kept string are
      dropped, so the kept strings are strictly ascending and none is lost. */
  method Dedupe(s: seq<bytes>) returns (r: seq<bytes>)
    requires Sorted(s)
    ensures Ascending(r)
    ensures forall x :: x in r <==> x in s
  {
    r := [];
    for i := 0 to |s|
      invariant i > 0 ==> |r| > 0 && r[|r| - 1] == s[i - 1]
      invariant i == 0 ==> r == []
      invariant Ascending(r)
      invariant forall x :: x in r <==> x in s[..i]
    {
      assert s[..i + 1] == s[..i] + [s[i]];
      if i > 0 && s[i] == r[|r| - 1] {
        continue;
      }
      if i > 0 {
        assert Leq(s[i - 1], s[i]);
        AscendingAppend(r, s[i]);
      }
      r := r + [s[i]];
    }
    assert s[..|s|] == s;
  }

  lemma AscendingAppend(r: seq<bytes>, x: bytes)
    requires Ascending(r) && r != [] && Lt(r[|r| - 1], x)
    ensures Ascending(r + [x])
  {
    forall i | 0 <= i < |r| ensures Lt(r[i], x) {
      if i < |r| - 1 { LtTransitive(r[i], r[|r| - 1], x); }
    }
  }
}
