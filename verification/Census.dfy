/** corpus_census_scopes: every tracked file matched by some scope's prefixes is
    resolved to one scope. Tests prefixes beat source prefixes, longer prefixes
    beat shorter ones, and two scopes with an equally good claim are an error. */
module Census {
  import opened Bytes
  import opened Wrappers
  import StrCmp
  import opened Sorting

  datatype Scope = Scope(src: seq<bytes>, tests: seq<bytes>)

  /** struct match: scope claims path through a prefix of length plen. */
  datatype Match = Match(path: bytes, scope: nat, plen: nat, via: bool)

  datatype Entry = Entry(path: bytes, via: bool)

  /* ---- claims ------------------------------------------------------------------- */

  /** Some prefix of that kind and length in the scope's definition matches. */
  ghost predicate Claims(defs: seq<Scope>, m: Match) {
    m.scope < |defs| && exists q :: q in Prefixes(defs[m.scope], m.via) && |q| == m.plen && q <= m.path
  }

  function Prefixes(s: Scope, via: bool): seq<bytes> { if via then s.tests else s.src }

  /** x takes precedence over m. */
  predicate Beats(x: Match, m: Match) {
    (x.via && !m.via) || (x.via == m.via && x.plen > m.plen)
  }

  /** m is a claim on its path that no other claim beats. */
  ghost predicate Best(defs: seq<Scope>, m: Match) {
    Claims(defs, m) && forall x :: Claims(defs, x) && x.path == m.path ==> !Beats(x, m)
  }

  /** Two scopes share the best claim on a path. */
  ghost predicate Overlap(defs: seq<Scope>, path: bytes) {
    exists m, x :: Best(defs, m) && Best(defs, x) && m.path == x.path == path && m.scope != x.scope
  }

  /* ---- collecting --------------------------------------------------------------------- */

  /** The matches are exactly the claims on the paths of the tree. */
  ghost predicate AllClaims(defs: seq<Scope>, tree: seq<bytes>, ms: seq<Match>) {
    forall m :: m in ms <==> m.path in tree && Claims(defs, m)
  }

  /** The matches of one prefix of one scope. */
  method CollectPrefix(tree: seq<bytes>, q: bytes, scope: nat, via: bool) returns (ms: seq<Match>)
    ensures forall m :: m in ms <==> m.path in tree && q <= m.path && m == Match(m.path, scope, |q|, via)
  {
    ms := [];
    for k := 0 to |tree|
      invariant forall m :: m in ms <==> m.path in tree[..k] && q <= m.path && m == Match(m.path, scope, |q|, via)
    {
      assert tree[..k + 1] == tree[..k] + [tree[k]];
      if q <= tree[k] { ms := ms + [Match(tree[k], scope, |q|, via)]; }
    }
    assert tree[..|tree|] == tree;
  }

  /** Every prefix of one kind of one scope. */
  method CollectKind(tree: seq<bytes>, qs: seq<bytes>, scope: nat, via: bool) returns (ms: seq<Match>)
    ensures forall m :: m in ms <==>
      m.path in tree && m.scope == scope && m.via == via && exists q :: q in qs && |q| == m.plen && q <= m.path
  {
    ms := [];
    for k := 0 to |qs|
      invariant forall m :: m in ms <==>
        m.path in tree && m.scope == scope && m.via == via && exists q :: q in qs[..k] && |q| == m.plen && q <= m.path
    {
      assert qs[..k + 1] == qs[..k] + [qs[k]];
      var more := CollectPrefix(tree, qs[k], scope, via);
      ms := ms + more;
    }
    assert qs[..|qs|] == qs;
  }

  /** claims_collect_matches, scope by scope, sources before tests. */
  method CollectMatches(defs: seq<Scope>, tree: seq<bytes>) returns (ms: seq<Match>)
    ensures AllClaims(defs, tree, ms)
  {
    ms := [];
    for s := 0 to |defs|
      invariant forall m :: m in ms <==> m.path in tree && m.scope < s && Claims(defs, m)
    {
      var src := CollectKind(tree, defs[s].src, s, false);
      var tests := CollectKind(tree, defs[s].tests, s, true);
      ms := ms + src + tests;
    }
  }

  /* ---- sorting -------------------------------------------------------------------------- */

  /** cmp_match(a, b) <= 0 */
  predicate Before(a: Match, b: Match) {
    if a.path != b.path then StrCmp.Lt(a.path, b.path)
    else if a.via != b.via then a.via
    else if a.plen != b.plen then a.plen > b.plen
    else a.scope <= b.scope
  }

  lemma BeforeOrder(a: Match, b: Match, c: Match)
    ensures Before(a, b) || Before(b, a)
    ensures Before(a, b) && Before(b, c) ==> Before(a, c)
  {
    StrCmp.LtTotal(a.path, b.path);
    if StrCmp.Lt(a.path, b.path) && StrCmp.Lt(b.path, c.path) { StrCmp.LtTransitive(a.path, b.path, c.path); }
    if StrCmp.Lt(a.path, b.path) && StrCmp.Lt(b.path, c.path) { StrCmp.LtIrreflexive(a.path); }
    if a.path == c.path && StrCmp.Lt(a.path, b.path) { StrCmp.LtAsymmetric(a.path, b.path); }
  }

  ghost predicate InOrder(ms: seq<Match>) {
    forall i, j :: 0 <= i < j < |ms| ==> Before(ms[i], ms[j])
  }

  /** qsort with cmp_match. */
  method SortMatches(ms: seq<Match>) returns (r: seq<Match>)
    ensures InOrder(r) && forall m :: m in r <==> m in ms
  {
    hide Before;
    forall a, b, c
      ensures (Before(a, b) || Before(b, a)) && (Before(a, b) && Before(b, c) ==> Before(a, c))
    {
      BeforeOrder(a, b, c);
    }
    r := Sort(Before, ms);
    SameElements(r, ms);
  }

  /* ---- assigning ------------------------------------------------------------------------ */

  /** The sorted claims of a tree. */
  ghost predicate SortedClaims(defs: seq<Scope>, tree: seq<bytes>, ms: seq<Match>) {
    AllClaims(defs, tree, ms) && InOrder(ms)
  }

  /** i starts a group of claims on one path, or is the end. */
  predicate Boundary(ms: seq<Match>, i: nat) {
    i <= |ms| && (0 < i < |ms| ==> ms[i - 1].path != ms[i].path)
  }

  /** Paths before a boundary come strictly before those from it on. */
  lemma BoundarySplits(ms: seq<Match>, i: nat, a: nat, b: nat)
    requires InOrder(ms) && Boundary(ms, i) && a < i <= b < |ms|
    ensures StrCmp.Lt(ms[a].path, ms[b].path)
  {
    assert Before(ms[i - 1], ms[i]);
    assert a < i - 1 ==> Before(ms[a], ms[i - 1]);
    assert i < b ==> Before(ms[i], ms[b]);
    if ms[a].path != ms[i - 1].path { StrCmp.LtTransitive(ms[a].path, ms[i - 1].path, ms[i].path); }
    if ms[i].path != ms[b].path { StrCmp.LtTransitive(ms[a].path, ms[i].path, ms[b].path); }
  }

  /** The first claim of a group is a best claim. */
  lemma FirstIsBest(defs: seq<Scope>, tree: seq<bytes>, ms: seq<Match>, i: nat)
    requires SortedClaims(defs, tree, ms) && Boundary(ms, i) && i < |ms|
    ensures Best(defs, ms[i])
  {
    hide Claims;
    assert ms[i] in ms;
    forall x | Claims(defs, x) && x.path == ms[i].path ensures !Beats(x, ms[i]) {
      assert x in ms;
      var j :| 0 <= j < |ms| && ms[j] == x;
      if j < i {
        BoundarySplits(ms, i, j, i);
        StrCmp.LtIrreflexive(x.path);
      } else {
        assert j > i ==> Before(ms[i], ms[j]);
      }
    }
  }

  /** Best claims on one path have the same kind and length. */
  lemma BestAlike(defs: seq<Scope>, m: Match, x: Match)
    requires Best(defs, m) && Claims(defs, x) && m.path == x.path
    ensures Best(defs, x) <==> m.via == x.via && m.plen == x.plen
  {
    hide Claims;
  }

  /** The claims of the group are ms[i..j]. */
  lemma GroupIs(defs: seq<Scope>, tree: seq<bytes>, ms: seq<Match>, i: nat, j: nat, m: Match)
    requires SortedClaims(defs, tree, ms) && Boundary(ms, i) && Boundary(ms, j) && i < j
    requires forall k :: i <= k < j ==> ms[k].path == ms[i].path
    requires m in ms && m.path == ms[i].path
    ensures exists k :: i <= k < j && ms[k] == m
  {
    var k :| 0 <= k < |ms| && ms[k] == m;
    if k < i {
      BoundarySplits(ms, i, k, i);
      StrCmp.LtIrreflexive(m.path);
    } else if k >= j {
      BoundarySplits(ms, j, i, k);
      StrCmp.LtIrreflexive(m.path);
    }
  }

  /** No claim of the group ties with its first from another scope: no overlap. */
  lemma NoTieNoOverlap(defs: seq<Scope>, tree: seq<bytes>, ms: seq<Match>, i: nat, j: nat)
    requires SortedClaims(defs, tree, ms) && Boundary(ms, i) && Boundary(ms, j) && i < j
    requires forall k :: i <= k < j ==> ms[k].path == ms[i].path
    requires forall k :: i < k < j ==> !Ties(ms[i], ms[k])
    ensures forall m :: Best(defs, m) && m.path == ms[i].path ==> m.scope == ms[i].scope && m.via == ms[i].via
    ensures !Overlap(defs, ms[i].path)
  {
    hide Claims;
    FirstIsBest(defs, tree, ms, i);
    assert ms[i] in ms;
    forall m | Best(defs, m) && m.path == ms[i].path ensures m.scope == ms[i].scope && m.via == ms[i].via {
      assert m in ms;
      GroupIs(defs, tree, ms, i, j, m);
      BestAlike(defs, ms[i], m);
    }
  }

  predicate Ties(win: Match, m: Match) {
    m.scope != win.scope && m.via == win.via && m.plen == win.plen
  }

  ghost predicate AscendingEntries(list: seq<Entry>) {
    forall a, b :: 0 <= a < b < |list| ==> StrCmp.Lt(list[a].path, list[b].path)
  }

  /** e is what the claims before i put in scope s. */
  ghost predicate Assigned(defs: seq<Scope>, ms: seq<Match>, i: nat, s: nat, e: Entry) {
    exists k :: 0 <= k < i <= |ms| && Best(defs, ms[k]) && ms[k].scope == s && ms[k].path == e.path
      && ms[k].via == e.via
  }

  /** The lists after the groups before i. */
  ghost predicate Lists(defs: seq<Scope>, ms: seq<Match>, i: nat, res: seq<seq<Entry>>) {
    && |res| == |defs|
    && (forall s :: 0 <= s < |res| ==> AscendingEntries(res[s]))
    && (forall s, e :: 0 <= s < |res| ==> (e in res[s] <==> Assigned(defs, ms, i, s, e)))
    && (forall k :: 0 <= k < i <= |ms| ==> !Overlap(defs, ms[k].path))
  }

  lemma AssignedBefore(defs: seq<Scope>, ms: seq<Match>, i: nat, s: nat, e: Entry, b: nat)
    requires InOrder(ms) && Boundary(ms, i) && Assigned(defs, ms, i, s, e) && i <= b < |ms|
    ensures StrCmp.Lt(e.path, ms[b].path)
  {
    hide Best;
    var k :| 0 <= k < i <= |ms| && Best(defs, ms[k]) && ms[k].scope == s && ms[k].path == e.path && ms[k].via == e.via;
    BoundarySplits(ms, i, k, b);
  }

  /** What one group adds. */
  lemma AssignedStep(defs: seq<Scope>, tree: seq<bytes>, ms: seq<Match>, i: nat, j: nat, s: nat, e: Entry)
    requires SortedClaims(defs, tree, ms) && Boundary(ms, i) && Boundary(ms, j) && i < j
    requires forall k :: i <= k < j ==> ms[k].path == ms[i].path
    requires forall k :: i < k < j ==> !Ties(ms[i], ms[k])
    ensures Assigned(defs, ms, j, s, e) <==>
              Assigned(defs, ms, i, s, e) || (s == ms[i].scope && e == Entry(ms[i].path, ms[i].via))
  {
    hide Best, SortedClaims;
    NoTieNoOverlap(defs, tree, ms, i, j);
    FirstIsBest(defs, tree, ms, i);
    if Assigned(defs, ms, j, s, e) {
      var k :| 0 <= k < j <= |ms| && Best(defs, ms[k]) && ms[k].scope == s && ms[k].path == e.path
        && ms[k].via == e.via;
    }
  }

  lemma ListsStep(defs: seq<Scope>, tree: seq<bytes>, ms: seq<Match>, i: nat, j: nat, res: seq<seq<Entry>>,
                  next: seq<seq<Entry>>)
    requires SortedClaims(defs, tree, ms) && Boundary(ms, i) && Boundary(ms, j) && i < j && Lists(defs, ms, i, res)
    requires forall k :: i <= k < j ==> ms[k].path == ms[i].path
    requires forall k :: i < k < j ==> !Ties(ms[i], ms[k])
    requires ms[i].scope < |res| && next == res[ms[i].scope := res[ms[i].scope] + [Entry(ms[i].path, ms[i].via)]]
    ensures Lists(defs, ms, j, next)
  {
    hide Overlap, SortedClaims, Ties, Assigned;
    NoTieNoOverlap(defs, tree, ms, i, j);
    var w, f := ms[i].scope, Entry(ms[i].path, ms[i].via);
    forall s, e | 0 <= s < |next| ensures e in next[s] <==> Assigned(defs, ms, j, s, e) {
      AssignedStep(defs, tree, ms, i, j, s, e);
    }
    forall a, b | 0 <= a < b < |next[w]| ensures StrCmp.Lt(next[w][a].path, next[w][b].path) {
      if b == |res[w]| {
        assert res[w][a] in res[w];
        OrderOf(defs, tree, ms);
        AssignedBefore(defs, ms, i, w, res[w][a], i);
      }
    }
  }

  lemma OrderOf(defs: seq<Scope>, tree: seq<bytes>, ms: seq<Match>)
    requires SortedClaims(defs, tree, ms)
    ensures InOrder(ms)
  {
  }

  /** claims_assign_winners */
  method AssignWinners(defs: seq<Scope>, ms: seq<Match>, ghost tree: seq<bytes>) returns (r: Option<seq<seq<Entry>>>)
    requires SortedClaims(defs, tree, ms)
    ensures r.None? <==> exists path :: path in tree && Overlap(defs, path)
    ensures r.Some? ==> Lists(defs, ms, |ms|, r.value)
  {
    hide Overlap, Claims, Best, InOrder, Lists;
    var res: seq<seq<Entry>> := seq(|defs|, s => []);
    ListsStart(defs, ms, res);
    var i := 0;
    while i < |ms|
      invariant Boundary(ms, i) && Lists(defs, ms, i, res) && |res| == |defs|
    {
      var j := i;
      while j < |ms| && ms[j].path == ms[i].path
        invariant i <= j <= |ms| && forall k :: i <= k < j ==> ms[k].path == ms[i].path
      {
        j := j + 1;
      }
      var win := ms[i];
      assert win in ms;
      FirstIsBest(defs, tree, ms, i);
      ClaimScope(defs, win);
      for k := i + 1 to j
        invariant forall h :: i < h < k ==> !Ties(win, ms[h])
      {
        if Ties(win, ms[k]) {
          assert ms[k] in ms;
          TieOverlaps(defs, win, ms[k]);
          return None;
        }
      }
      var next := res[win.scope := res[win.scope] + [Entry(win.path, win.via)]];
      ListsStep(defs, tree, ms, i, j, res, next);
      res, i := next, j;
    }
    NoOverlaps(defs, tree, ms, res);
    r := Some(res);
  }

  lemma ListsStart(defs: seq<Scope>, ms: seq<Match>, res: seq<seq<Entry>>)
    requires |res| == |defs| && forall s :: 0 <= s < |res| ==> res[s] == []
    ensures Lists(defs, ms, 0, res)
  {
    hide Best, Overlap;
  }

  lemma ClaimScope(defs: seq<Scope>, m: Match)
    requires Best(defs, m)
    ensures m.scope < |defs|
  {
  }

  lemma TieOverlaps(defs: seq<Scope>, win: Match, m: Match)
    requires Best(defs, win) && Claims(defs, m) && m.path == win.path && Ties(win, m)
    ensures Overlap(defs, win.path)
  {
    hide Best;
    BestAlike(defs, win, m);
  }

  lemma NoOverlaps(defs: seq<Scope>, tree: seq<bytes>, ms: seq<Match>, res: seq<seq<Entry>>)
    requires SortedClaims(defs, tree, ms) && Lists(defs, ms, |ms|, res)
    ensures forall path :: path in tree ==> !Overlap(defs, path)
  {
    hide InOrder, AscendingEntries, Assigned;
    forall path | path in tree ensures !Overlap(defs, path) {
      if m, x :| Best(defs, m) && Best(defs, x) && m.path == x.path == path && m.scope != x.scope {
        assert m in ms;
        var k :| 0 <= k < |ms| && ms[k] == m;
      }
    }
  }

  /* ---- resolving ----------------------------------------------------------------------------- */

  /** The result the scopes definition asks for. */
  ghost predicate Resolved(defs: seq<Scope>, tree: seq<bytes>, res: seq<seq<Entry>>) {
    && |res| == |defs|
    && (forall s :: 0 <= s < |res| ==> AscendingEntries(res[s]))
    && (forall s, e :: 0 <= s < |res| ==> (e in res[s] <==> e.path in tree && HasBest(defs, s, e)))
  }

  ghost predicate HasBest(defs: seq<Scope>, s: nat, e: Entry) {
    exists plen :: Best(defs, Match(e.path, s, plen, e.via))
  }

  /** Some prefix of that list starts the path. */
  ghost predicate Starts(qs: seq<bytes>, path: bytes) { exists q :: q in qs && q <= path }

  /** No scope has a longer prefix of the path among its tests, or its sources. */
  ghost predicate Longest(defs: seq<Scope>, tests: bool, q: bytes, path: bytes) {
    forall s, p :: 0 <= s < |defs| && p in (if tests then defs[s].tests else defs[s].src) && p <= path ==> |p| <= |q|
  }

  /** Scope s holds the path through a tests prefix, the longest there is; or no scope
      has a tests prefix of it and s has the longest source prefix. */
  ghost predicate Holds(defs: seq<Scope>, s: nat, path: bytes, via: bool) {
    && s < |defs|
    && if via then exists q :: q in defs[s].tests && q <= path && Longest(defs, true, q, path)
       else (forall x :: 0 <= x < |defs| ==> !Starts(defs[x].tests, path))
            && exists q :: q in defs[s].src && q <= path && Longest(defs, false, q, path)
  }

  lemma HoldsIsBest(defs: seq<Scope>, s: nat, e: Entry)
    ensures HasBest(defs, s, e) <==> Holds(defs, s, e.path, e.via)
  {
    if HasBest(defs, s, e) {
      var plen :| Best(defs, Match(e.path, s, plen, e.via));
      BestHolds(defs, s, e, plen);
    }
    if Holds(defs, s, e.path, e.via) {
      var q :| q in Prefixes(defs[s], e.via) && q <= e.path && Longest(defs, e.via, q, e.path);
      HolderBest(defs, s, e, q);
    }
  }

  lemma StartsClaims(defs: seq<Scope>, x: nat, path: bytes)
    requires x < |defs|
    ensures Starts(defs[x].tests, path) ==> exists n :: Claims(defs, Match(path, x, n, true))
  {
    if p :| p in defs[x].tests && p <= path {
      assert p in Prefixes(defs[x], true);
      assert Claims(defs, Match(path, x, |p|, true));
    }
  }

  lemma BestHolds(defs: seq<Scope>, s: nat, e: Entry, plen: nat)
    requires Best(defs, Match(e.path, s, plen, e.via))
    ensures Holds(defs, s, e.path, e.via)
  {
    var m := Match(e.path, s, plen, e.via);
    var q :| q in Prefixes(defs[s], e.via) && |q| == plen && q <= e.path;
    forall x, p | 0 <= x < |defs| && p in (if e.via then defs[x].tests else defs[x].src) && p <= e.path
      ensures |p| <= |q|
    {
      assert p in Prefixes(defs[x], e.via);
      assert Claims(defs, Match(e.path, x, |p|, e.via));
    }
    assert Longest(defs, e.via, q, e.path);
    if !e.via {
      forall x | 0 <= x < |defs| ensures !Starts(defs[x].tests, e.path) {
        StartsClaims(defs, x, e.path);
      }
    }
  }

  lemma HolderBest(defs: seq<Scope>, s: nat, e: Entry, q: bytes)
    requires Holds(defs, s, e.path, e.via)
    requires q in Prefixes(defs[s], e.via) && q <= e.path && Longest(defs, e.via, q, e.path)
    ensures HasBest(defs, s, e)
  {
    var m := Match(e.path, s, |q|, e.via);
    assert Claims(defs, m);
    forall x | Claims(defs, x) && x.path == e.path ensures !Beats(x, m) {
      var p :| p in Prefixes(defs[x.scope], x.via) && |p| == x.plen && p <= e.path;
      assert Starts(Prefixes(defs[x.scope], x.via), e.path);
    }
    assert Best(defs, m);
  }

  /** The lists, said on the prefixes themselves. */
  ghost predicate Listed(defs: seq<Scope>, tree: seq<bytes>, res: seq<seq<Entry>>) {
    forall s, e :: 0 <= s < |res| ==> (e in res[s] <==> e.path in tree && Holds(defs, s, e.path, e.via))
  }

  /** Two scopes hold the path equally well. */
  ghost predicate Shared(defs: seq<Scope>, path: bytes) {
    exists s, x, via :: s != x && Holds(defs, s, path, via) && Holds(defs, x, path, via)
  }

  lemma SharedIff(defs: seq<Scope>, path: bytes)
    ensures Overlap(defs, path) <==> Shared(defs, path)
  {
    hide Claims, Holds;
    if m, x :| Best(defs, m) && Best(defs, x) && m.path == x.path == path && m.scope != x.scope {
      assert m.via == x.via;
      assert m == Match(path, m.scope, m.plen, m.via) && x == Match(path, x.scope, x.plen, m.via);
      HoldsIsBest(defs, m.scope, Entry(path, m.via));
      HoldsIsBest(defs, x.scope, Entry(path, m.via));
    }
    if s, x, via :| s != x && Holds(defs, s, path, via) && Holds(defs, x, path, via) {
      HoldsIsBest(defs, s, Entry(path, via));
      HoldsIsBest(defs, x, Entry(path, via));
      var p :| Best(defs, Match(path, s, p, via));
      var q :| Best(defs, Match(path, x, q, via));
    }
  }

  /** claims_resolve: fails exactly if two scopes share the best claim on a path of
      the tree; otherwise each scope's list holds, in order, exactly the paths
      whose best claim is its own. */
  method Resolve(defs: seq<Scope>, tree: seq<bytes>) returns (r: Option<seq<seq<Entry>>>)
    ensures r.None? <==> exists path :: path in tree && Shared(defs, path)
    ensures r.Some? ==> Resolved(defs, tree, r.value) && Listed(defs, tree, r.value)
  {
    hide Overlap, Claims, Best, InOrder, Lists, Resolved, Shared, Listed;
    forall path ensures Overlap(defs, path) <==> Shared(defs, path) { SharedIff(defs, path); }
    var ms := CollectMatches(defs, tree);
    ms := SortMatches(ms);
    r := AssignWinners(defs, ms, tree);
    if r.Some? {
      ListsResolved(defs, tree, ms, r.value);
      ResolvedListed(defs, tree, r.value);
    }
  }

  lemma ListsResolved(defs: seq<Scope>, tree: seq<bytes>, ms: seq<Match>, res: seq<seq<Entry>>)
    requires SortedClaims(defs, tree, ms) && Lists(defs, ms, |ms|, res)
    ensures Resolved(defs, tree, res)
  {
    hide InOrder, AscendingEntries, Overlap, Claims;
    forall s, e | 0 <= s < |res| ensures e in res[s] <==> e.path in tree && HasBest(defs, s, e) {
      if Assigned(defs, ms, |ms|, s, e) {
        var k :| 0 <= k < |ms| && Best(defs, ms[k]) && ms[k].scope == s && ms[k].path == e.path && ms[k].via == e.via;
        assert ms[k] in ms && ms[k] == Match(e.path, s, ms[k].plen, e.via);
      }
      if e.path in tree && HasBest(defs, s, e) {
        var plen :| Best(defs, Match(e.path, s, plen, e.via));
        var m := Match(e.path, s, plen, e.via);
        assert m in ms;
        var k :| 0 <= k < |ms| && ms[k] == m;
        assert Assigned(defs, ms, |ms|, s, e);
      }
    }
  }

  lemma ResolvedListed(defs: seq<Scope>, tree: seq<bytes>, res: seq<seq<Entry>>)
    requires Resolved(defs, tree, res)
    ensures Listed(defs, tree, res)
  {
    hide HasBest, Holds, AscendingEntries;
    forall s, e | 0 <= s < |res| ensures e in res[s] <==> e.path in tree && Holds(defs, s, e.path, e.via) {
      HoldsIsBest(defs, s, e);
    }
  }

  /** Every matched path is in exactly one list, once. */
  lemma OneScopeEach(defs: seq<Scope>, tree: seq<bytes>, res: seq<seq<Entry>>, s: nat, e: Entry, s': nat, e': Entry)
    requires Resolved(defs, tree, res) && forall path :: path in tree ==> !Overlap(defs, path)
    requires s < |res| && e in res[s] && s' < |res| && e' in res[s'] && e.path == e'.path
    ensures s == s' && e == e'
  {
    hide Claims, AscendingEntries;
    var p :| Best(defs, Match(e.path, s, p, e.via));
    var q :| Best(defs, Match(e'.path, s', q, e'.via));
  }

  /** ... and in at least one. */
  lemma NoneForgotten(defs: seq<Scope>, tree: seq<bytes>, res: seq<seq<Entry>>, m: Match)
    requires Resolved(defs, tree, res) && m.path in tree && Claims(defs, m)
    ensures exists s, e :: 0 <= s < |res| && e in res[s] && e.path == m.path
  {
    hide AscendingEntries;
    BestAbove(defs, m, if m.via then 0 else 1, |m.path| - m.plen);
    var b :| Best(defs, b) && b.path == m.path;
    var e := Entry(b.path, b.via);
    assert b == Match(e.path, b.scope, b.plen, e.via);
    ClaimScope(defs, b);
    assert e in res[b.scope];
  }

  /** Above every claim there is a best one. */
  lemma {:induction false} BestAbove(defs: seq<Scope>, m: Match, kind: nat, room: nat)
    requires Claims(defs, m) && kind == (if m.via then 0 else 1) && room == |m.path| - m.plen
    ensures exists b :: Best(defs, b) && b.path == m.path
    decreases kind, room
  {
    if !Best(defs, m) {
      var x :| Claims(defs, x) && x.path == m.path && Beats(x, m);
      BestAbove(defs, x, if x.via then 0 else 1, |x.path| - x.plen);
    }
  }

  /** The order in which files are enumerated does not matter. */
  lemma EnumerationIrrelevant(defs: seq<Scope>, tree: seq<bytes>, other: seq<bytes>, a: seq<seq<Entry>>,
                              b: seq<seq<Entry>>)
    requires forall path :: path in tree <==> path in other
    requires Resolved(defs, tree, a) && Resolved(defs, other, b)
    ensures a == b
  {
    hide HasBest, AscendingEntries;
    forall s | 0 <= s < |defs| ensures a[s] == b[s] {
      forall e ensures e in a[s] <==> e in b[s] { assert e.path in tree <==> e.path in other; }
      SameEntries(a[s], b[s]);
    }
  }

  lemma {:induction false} SameEntries(a: seq<Entry>, b: seq<Entry>)
    requires AscendingEntries(a) && AscendingEntries(b) && forall e :: e in a <==> e in b
    ensures a == b
  {
    BothEmpty(a, b);
    if a != [] && b != [] {
      FirstSame(a, b);
      forall e ensures e in a[1..] <==> e in b[1..] {
        RestMembers(a, e);
        RestMembers(b, e);
      }
      SameEntries(a[1..], b[1..]);
      assert a == [a[0]] + a[1..] && b == [b[0]] + b[1..];
    }
  }

  lemma BothEmpty(a: seq<Entry>, b: seq<Entry>)
    requires forall e :: e in a <==> e in b
    ensures a == [] <==> b == []
  {
    if a != [] { assert a[0] in a; }
    if b != [] { assert b[0] in b; }
  }

  lemma FirstSame(a: seq<Entry>, b: seq<Entry>)
    requires AscendingEntries(a) && AscendingEntries(b) && a != [] && b != [] && forall e :: e in a <==> e in b
    ensures a[0] == b[0]
  {
    assert a[0] in b && b[0] in a;
    var i :| 0 <= i < |b| && b[i] == a[0];
    var j :| 0 <= j < |a| && a[j] == b[0];
    if i > 0 && j > 0 { StrCmp.LtAsymmetric(b[0].path, b[i].path); }
  }

  lemma RestMembers(a: seq<Entry>, e: Entry)
    requires AscendingEntries(a) && a != []
    ensures e in a[1..] <==> e in a && e != a[0]
  {
    if e in a[1..] {
      var i :| 0 <= i < |a[1..]| && a[1..][i] == e;
      assert a[i + 1] == e;
      StrCmp.LtAsymmetric(a[0].path, e.path);
    }
    if e in a && e != a[0] {
      var i :| 0 <= i < |a| && a[i] == e;
      assert a[1..][i - 1] == e;
    }
  }
}
