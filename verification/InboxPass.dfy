/** What one pass of the inbox does to the marks of a board, whatever fails, and what
    many passes add up to. */
module InboxPass {
  import opened InboxLedger
  import opened InboxBoard

  /** How answering one post goes: no call left or no checkout, the model fails or
      its answer is refused or escalated, or an answer to publish. */
  datatype Work = NoCall | NoAnswer | Answer

  datatype Env = Env(
    readable: nat -> bool, written: nat -> nat, appendOk: nat -> bool, crash: nat -> bool,
    postOk: nat -> bool, work: nat -> Work, pageOk: nat -> bool, threadFits: nat -> bool)

  /* What may fail from one time to another. */

  /** Pages load. */
  ghost predicate Loads(e: Env, from: nat, to: nat) {
    forall n :: from <= n < to ==> e.pageOk(n)
  }

  /** A row is appended whole or not at all. */
  ghost predicate Whole(e: Env, from: nat, to: nat) {
    forall n :: from <= n < to ==> e.written(n) == 0 || e.written(n) > MAX_ID
  }

  /** Nothing fails but the load of pages. */
  ghost predicate Sound(e: Env, from: nat, to: nat) {
    forall n :: from <= n < to ==>
      e.readable(n) && e.written(n) > MAX_ID && e.appendOk(n) && !e.crash(n) && e.threadFits(n)
  }

  ghost predicate Steady(e: Env, from: nat, to: nat) { Whole(e, from, to) && Loads(e, from, to) }

  /** Nothing fails. */
  ghost predicate Quiet(e: Env, from: nat, to: nat) { Sound(e, from, to) && Loads(e, from, to) }

  lemma SoundIsWhole(e: Env, from: nat, to: nat)
    ensures Sound(e, from, to) ==> Whole(e, from, to)
  {
  }

  lemma Meanwhile(e: Env, a: nat, b: nat, c: nat, d: nat)
    requires a <= b && c <= d
    ensures Loads(e, a, d) ==> Loads(e, b, c)
    ensures Whole(e, a, d) ==> Whole(e, b, c)
    ensures Sound(e, a, d) ==> Sound(e, b, c)
  {
  }

  /* What a burst of u unseen posts meets when the pass starts at a time. Page k is
     asked for at that time + 2 * k as long as it begins with an unseen post. */

  /** Page k is the first of them that does not load. */
  ghost predicate MissesAt(pages: Pages, e: Env, now: nat, u: nat, k: nat) {
    && k < |pages| && At(pages, k) < u && !e.pageOk(now + 2 * k)
    && forall l :: 0 <= l < k ==> e.pageOk(now + 2 * l)
  }

  /** The pass leaves the seen posts the older ones: nothing is unseen, nothing is
      read, or the whole burst is within the limits and its pages load. */
  ghost predicate Keeps(pages: Pages, e: Env, now: nat, u: nat) {
    || u == 0 || !e.pageOk(now)
    || (u <= Cap(pages) && forall k :: 1 <= k < |pages| && At(pages, k) < u ==> e.pageOk(now + 2 * k))
  }

  /** Four slots take up all posts of a page, its first included. */
  predicate TakesWhole(page: seq<Post>) {
    page != [] && Others(page[1..]) < PER_PASS
  }

  /** The pass cuts the burst before page k. */
  ghost predicate Cuts(pages: Pages, e: Env, now: nat, u: nat, k: nat) {
    1 <= k < |pages| && MissesAt(pages, e, now, u, k) && TakesWhole(pages[k - 1])
  }

  /** The pass leaves posts that no pass takes up: some are past the limits, or a
      page does not load and the four slots suffice for the page before it. */
  ghost predicate Skips(pages: Pages, e: Env, now: nat, u: nat) {
    || u > Cap(pages)
    || exists k :: Cuts(pages, e, now, u, k)
  }

  /* ---- what a ledger says about a board -------------------------------------------------- */

  ghost predicate Tidy(pages: Pages, s: string) { Orderly(Flat(pages)) && Open(s) == 0 }

  /** A burst: the first u posts are unseen, and nothing else. */
  ghost predicate Ready(pages: Pages, s: string, u: nat) {
    Filled(pages) && Tidy(pages, s) && Ordered(Marks(Flat(pages), s), u)
  }

  /** The seen posts are the older ones. */
  ghost predicate InOrder(pages: Pages, s: string) {
    exists v :: Ordered(Marks(Flat(pages), s), v)
  }

  /** From s to t seen posts stay seen, and posts out of reach are left alone. */
  ghost predicate Confined(pages: Pages, s: string, t: string) {
    var m, n := Marks(Flat(pages), s), Marks(Flat(pages), t);
    forall i :: 0 <= i < |m| ==> (m[i] ==> n[i]) && (i >= Reach(pages, m) ==> n[i] == m[i])
  }

  /** From s to t nothing unseen falls out of reach, and of the unseen posts within
      reach 4 * k are gone, or all. */
  ghost predicate Advances(pages: Pages, s: string, t: string, k: nat) {
    var m, n := Marks(Flat(pages), s), Marks(Flat(pages), t);
    var r := Reach(pages, m);
    && r <= |m| && (forall i :: Reach(pages, n) <= i < r ==> n[i])
    && (Unseen(n, 0, r) == 0 || Unseen(n, 0, r) + PER_PASS * k <= Unseen(m, 0, r))
  }

  /** Seen in t are the posts seen in s and those that were within reach. */
  ghost predicate TakesAll(pages: Pages, s: string, t: string) {
    var m, n := Marks(Flat(pages), s), Marks(Flat(pages), t);
    forall i :: 0 <= i < |m| ==> (n[i] <==> m[i] || i < Reach(pages, m))
  }

  /** After a pass that missed page k: the rest of the burst is unseen, and what it
      read is seen or within reach. */
  ghost predicate ShortOf(pages: Pages, s: string, u: nat, k: nat) {
    var m := Marks(Flat(pages), s);
    && k <= |pages|
    && (forall i :: At(pages, k) <= i < |m| ==> (m[i] <==> i >= u))
    && (forall i :: Reach(pages, m) <= i < At(pages, k) && i < |m| ==> m[i])
  }

  lemma ConfinedSame(pages: Pages, s: string)
    ensures Confined(pages, s, s)
  {
    hide Seen, Reach, Flat;
  }

  lemma ConfinedReach(pages: Pages, s: string, t: string)
    requires Confined(pages, s, t)
    ensures Reach(pages, Marks(Flat(pages), t)) <= Reach(pages, Marks(Flat(pages), s))
  {
    hide Seen, Reach, Flat;
    ReachShrinks(pages, Marks(Flat(pages), s), Marks(Flat(pages), t));
  }

  lemma ConfinedTwice(pages: Pages, a: string, b: string, c: string)
    requires Confined(pages, a, b) && Confined(pages, b, c)
    ensures Confined(pages, a, c)
  {
    hide Seen, Reach, Flat;
    ConfinedReach(pages, a, b);
    var l, m, n := Marks(Flat(pages), a), Marks(Flat(pages), b), Marks(Flat(pages), c);
    forall i | 0 <= i < |l| ensures (l[i] ==> n[i]) && (i >= Reach(pages, l) ==> n[i] == l[i]) {
      assert (l[i] ==> m[i]) && (m[i] ==> n[i]);
    }
  }

  lemma AdvancesSame(pages: Pages, s: string)
    ensures Advances(pages, s, s, 0)
  {
    hide Seen, Reach, Flat;
    ReachBound(pages, Marks(Flat(pages), s));
  }

  lemma AdvancesTwice(pages: Pages, a: string, b: string, c: string, k: nat, l: nat)
    requires Confined(pages, a, b) && Confined(pages, b, c) && Advances(pages, a, b, k) && Advances(pages, b, c, l)
    ensures Advances(pages, a, c, k + l)
  {
    hide Seen, Reach, Flat;
    var x, y, z := Marks(Flat(pages), a), Marks(Flat(pages), b), Marks(Flat(pages), c);
    var r, q := Reach(pages, x), Reach(pages, y);
    ConfinedReach(pages, a, b);
    forall i | Reach(pages, z) <= i < r ensures z[i] {
      if i >= q { assert y[i]; }
    }
    UnseenNone(y, q, r);
    UnseenNone(z, q, r);
    UnseenSplit(y, 0, q, r);
    UnseenSplit(z, 0, q, r);
    assert Unseen(z, 0, r) == Unseen(z, 0, q) && Unseen(y, 0, r) == Unseen(y, 0, q);
  }

  /** Enough passes take up all within reach, and nothing else. */
  lemma AdvancesAll(pages: Pages, s: string, t: string, k: nat)
    requires Confined(pages, s, t) && Advances(pages, s, t, k)
    requires var m := Marks(Flat(pages), s);
             Reach(pages, m) <= |m| ==> Unseen(m, 0, Reach(pages, m)) <= PER_PASS * k
    ensures TakesAll(pages, s, t)
  {
    hide Seen, Reach, Flat;
    var m, n := Marks(Flat(pages), s), Marks(Flat(pages), t);
    UnseenNone(n, 0, Reach(pages, m));
  }

  /** Unless posts were hidden that is the whole board. */
  lemma TakesBoard(pages: Pages, s: string, t: string)
    requires TakesAll(pages, s, t)
    ensures AllSeen(pages, t) <==> !Hidden(pages, Marks(Flat(pages), s))
  {
    hide Seen, Reach, Flat;
    var m, n := Marks(Flat(pages), s), Marks(Flat(pages), t);
    if Hidden(pages, m) {
      var i :| Reach(pages, m) <= i < |m| && !m[i];
      assert !n[i];
    } else {
      forall i | 0 <= i < |m| ensures n[i] {
        assert i >= Reach(pages, m) ==> m[i];
      }
    }
  }

  lemma ReadyTidy(pages: Pages, s: string, u: nat)
    requires Ready(pages, s, u)
    ensures Filled(pages) && Tidy(pages, s) && Ordered(Marks(Flat(pages), s), u)
  {
  }

  /* ---- one pass ---------------------------------------------------------------------------- */

  /** The pass recorded the posts from j to n. */
  ghost predicate Took(pages: Pages, s: string, t: string, n: nat, j: nat) {
    var m := Marks(Flat(pages), s);
    && Readable(pages, m, n) && j <= n
    && Marks(Flat(pages), t) == Taken(m, j, n)
  }

  lemma PassConfined(pages: Pages, s: string, t: string, n: nat, j: nat)
    requires Took(pages, s, t, n, j)
    ensures Confined(pages, s, t)
  {
    hide Seen, Reach, Flat, Readable, Marks;
    var m := Marks(Flat(pages), s);
    MarksLength(Flat(pages), s);
    forall i | 0 <= i < |m| && i >= Reach(pages, m) ensures Taken(m, j, n)[i] == m[i] {
      BeyondReach(pages, m, j, n, i);
    }
  }

  lemma MarksLength(board: seq<Post>, s: string)
    ensures |Marks(board, s)| == |board|
  {
  }

  lemma PassAdvances(pages: Pages, s: string, t: string, n: nat, j: nat, quiet: bool)
    requires Took(pages, s, t, n, j) && Reach(pages, Marks(Flat(pages), s)) <= n <= |Flat(pages)|
    requires quiet ==> Stops(Flat(pages), Marks(Flat(pages), s), j, n)
    ensures Advances(pages, s, t, if quiet then 1 else 0)
  {
    hide Seen, Reach, Flat, Readable, Marks, Stops;
    var m, b := Marks(Flat(pages), s), Taken(Marks(Flat(pages), s), j, n);
    var r := Reach(pages, m);
    MarksLength(Flat(pages), s);
    ReachBound(pages, m);
    forall i | Reach(pages, b) <= i < r ensures b[i] {
      ReachTaken(pages, m, j, n, i);
    }
    if quiet {
      StopProgress(pages, Flat(pages), m, j, n);
    } else {
      UnseenSame(m, b, 0, r);
    }
  }

  /** The burst shrinks to where the pass stopped. */
  lemma PassOrder(pages: Pages, s: string, t: string, u: nat, n: nat, j: nat)
    requires Took(pages, s, t, n, j) && Tidy(pages, t) && Ready(pages, s, u) && u <= n <= |Flat(pages)|
    ensures Ready(pages, t, Min(u, j))
  {
    hide Seen, Reach, Flat, Readable, Marks, Tidy;
    var m := Marks(Flat(pages), s);
    MarksLength(Flat(pages), s);
    OrderKept(m, u, j, n);
  }

  lemma PassTakes(pages: Pages, s: string, u: nat, n: nat, j: nat)
    requires Ready(pages, s, u) && u <= n <= |Flat(pages)| && Stops(Flat(pages), Marks(Flat(pages), s), j, n)
    ensures Min(u, j) == 0 || u - Min(u, j) >= PER_PASS
  {
    hide Seen, Flat, Marks, Tidy;
    var m := Marks(Flat(pages), s);
    MarksLength(Flat(pages), s);
    SlotsUnseen(Flat(pages), m, j, n);
    if j <= u {
      UnseenSplit(m, j, u, n);
      UnseenNone(m, u, n);
      AllUnseen(m, j, u);
    } else {
      UnseenNone(m, j, n);
    }
  }

  /** What is read of a burst within the limits. */
  ghost predicate Fetched(pages: Pages, e: Env, now: nat, u: nat, n: nat, k: nat) {
    || (u <= n && forall l :: 0 <= l < |pages| && At(pages, l) < u ==> e.pageOk(now + 2 * l))
    || (MissesAt(pages, e, now, u, k) && n == At(pages, k))
  }

  /** The page that is missed is determined. */
  lemma MissOnce(pages: Pages, e: Env, now: nat, u: nat, k: nat, l: nat)
    requires MissesAt(pages, e, now, u, k) && MissesAt(pages, e, now, u, l)
    ensures k == l
  {
  }

  lemma StopsBelow(board: seq<Post>, m: seq<bool>, j: nat, n: nat)
    requires 0 < n <= |m| && n <= |board| && Stops(board, m, j, n)
    ensures j < n
  {
  }

  /** The order after a pass in which nothing fails but the load of pages. */
  lemma OrderIff(pages: Pages, e: Env, now: nat, s: string, t: string, u: nat, n: nat, j: nat, k: nat)
    requires Took(pages, s, t, n, j) && Ready(pages, s, u) && n <= |Flat(pages)| && n <= Cap(pages)
    requires Stops(Flat(pages), Marks(Flat(pages), s), j, n)
    requires pages != [] ==> (n == 0 <==> !e.pageOk(now))
    requires u <= Cap(pages) ==> Fetched(pages, e, now, u, n, k)
    ensures InOrder(pages, t) <==> Keeps(pages, e, now, u)
  {
    hide Seen, Reach, Flat, Readable, Marks, Tidy, Stops, Cap, At, Ordered;
    var m := Marks(Flat(pages), s);
    MarksLength(Flat(pages), s);
    OrderedBound(m, u);
    if u <= n {
      OrderKept(m, u, j, n);
      assert InOrder(pages, t);
      KeepsWhole(pages, e, now, u, n, k);
    } else if n == 0 {
      TakenNone(m, 0);
      assert InOrder(pages, t);
      NoPages(pages);
    } else {
      NoPages(pages);
      StopsBelow(Flat(pages), m, j, n);
      forall v ensures !Ordered(Taken(m, j, n), v) { OrderLost(m, u, j, n, v); }
      KeepsNot(pages, e, now, u, n, k);
    }
  }

  lemma OrderedBound(m: seq<bool>, u: nat)
    requires Ordered(m, u)
    ensures u <= |m|
  {
  }

  lemma NoPages(pages: Pages)
    ensures pages == [] ==> |Flat(pages)| == 0
  {
  }

  lemma KeepsWhole(pages: Pages, e: Env, now: nat, u: nat, n: nat, k: nat)
    requires u <= n <= Cap(pages) && Fetched(pages, e, now, u, n, k)
    ensures Keeps(pages, e, now, u)
  {
    hide Cap, At;
  }

  lemma KeepsNot(pages: Pages, e: Env, now: nat, u: nat, n: nat, k: nat)
    requires 0 < n < u && n <= Cap(pages) && e.pageOk(now) && (u <= Cap(pages) ==> Fetched(pages, e, now, u, n, k))
    ensures !Keeps(pages, e, now, u)
    ensures u <= Cap(pages) ==> 1 <= k < |pages| && MissesAt(pages, e, now, u, k) && n == At(pages, k)
  {
    hide Cap;
    if u <= Cap(pages) { FlatStart(pages); }
  }

  /** What is out of reach after such a pass. */
  lemma SkipsIff(pages: Pages, e: Env, now: nat, s: string, t: string, u: nat, n: nat, j: nat, k: nat)
    requires Took(pages, s, t, n, j) && Ready(pages, s, u) && n <= |Flat(pages)| && n <= Cap(pages)
    requires Stops(Flat(pages), Marks(Flat(pages), s), j, n)
    requires pages != [] ==> (n == 0 <==> !e.pageOk(now))
    requires u <= Cap(pages) ==> Fetched(pages, e, now, u, n, k)
    ensures Hidden(pages, Marks(Flat(pages), t)) <==> Skips(pages, e, now, u)
  {
    hide Seen, Reach, Flat, Readable, Marks, Tidy, Stops, Cap, At, Ordered, Others;
    var m := Marks(Flat(pages), s);
    var b := Taken(m, j, n);
    MarksLength(Flat(pages), s);
    OrderedBound(m, u);
    if u > Cap(pages) {
      HiddenBeyond(pages, m, j, n, u);
    } else if u <= n {
      OrderKept(m, u, j, n);
      OrderedReach(pages, b, Min(u, j));
      NoMiss(pages, e, now, u, n, k);
    } else if n == 0 {
      TakenNone(m, 0);
      OrderedReach(pages, m, u);
      NoPages(pages);
      forall l | 1 <= l < |pages| ensures !MissesAt(pages, e, now, u, l) { MissLater(pages, e, now, u, l); }
    } else {
      KeepsNot(pages, e, now, u, n, k);
      HiddenShort(pages, m, u, k, j);
      assert TakesWhole(pages[k - 1]) <==> Cuts(pages, e, now, u, k);
      forall l | 1 <= l < |pages| && MissesAt(pages, e, now, u, l) ensures l == k { MissOnce(pages, e, now, u, k, l); }
    }
  }

  lemma MissLater(pages: Pages, e: Env, now: nat, u: nat, l: nat)
    requires l >= 1
    ensures MissesAt(pages, e, now, u, l) ==> e.pageOk(now)
  {
    hide At;
    assert MissesAt(pages, e, now, u, l) ==> e.pageOk(now + 2 * 0);
  }

  lemma NoMiss(pages: Pages, e: Env, now: nat, u: nat, n: nat, k: nat)
    requires u <= n && Fetched(pages, e, now, u, n, k)
    ensures forall l :: !MissesAt(pages, e, now, u, l)
  {
    hide At;
  }

  /** After a miss the rest of the burst is still there. */
  lemma ShortAfter(pages: Pages, e: Env, now: nat, s: string, t: string, u: nat, n: nat, j: nat, k: nat, l: nat)
    requires Took(pages, s, t, n, j) && Ready(pages, s, u) && n <= |Flat(pages)| && n <= Cap(pages)
    requires u <= Cap(pages) && Fetched(pages, e, now, u, n, k) && 1 <= l < |pages| && MissesAt(pages, e, now, u, l)
    ensures ShortOf(pages, t, u, l)
  {
    hide Seen, Flat, Readable, Marks, Tidy, Cap, At;
    var m := Marks(Flat(pages), s);
    var b := Taken(m, j, n);
    MarksLength(Flat(pages), s);
    if u <= n { NoMiss(pages, e, now, u, n, k); }
    MissOnce(pages, e, now, u, k, l);
    FlatPrefix(pages, |pages|);
    var g := FirstDone(pages, b, 0);
    forall i | Reach(pages, b) <= i < n ensures b[i] {
      assert At(pages, g) <= i;
      AtMonotone(pages, g, |pages|);
      PageStart(pages, b, g);
    }
  }

  /* ---- reading the board ---------------------------------------------------------------------- */

  lemma LoadsAt(e: Env, from: nat, now: nat, to: nat)
    requires from <= now < to
    ensures Loads(e, from, to) ==> e.pageOk(now)
  {
  }

  lemma SoundReads(e: Env, from: nat, now: nat, to: nat)
    requires from <= now < to
    ensures Sound(e, from, to) ==> e.readable(now)
  {
  }

  lemma SoundFits(e: Env, now: nat, to: nat)
    requires now < to
    ensures Sound(e, now, to) ==> e.threadFits(now)
  {
  }

  /** n pages are not past the first that shows nothing unseen. */
  ghost predicate NotPast(pages: Pages, m: seq<bool>, n: nat, more: bool) {
    var h := FirstDone(pages, m, 0);
    n <= h || (n == h + 1 && !more)
  }

  /** n pages hold all within reach. */
  ghost predicate Covers(pages: Pages, m: seq<bool>, n: nat) {
    n <= |pages| && (n == |pages| || At(pages, n) >= POST_LIMIT || FirstDone(pages, m, 0) <= n)
  }

  lemma CoversReach(pages: Pages, m: seq<bool>, n: nat)
    requires n <= |pages| && |m| == |Flat(pages)| && (Covers(pages, m, n) || n == PAGES)
    ensures Reach(pages, m) <= Min(At(pages, n), POST_LIMIT)
  {
    hide Flat, At, FirstDone;
    var h := FirstDone(pages, m, 0);
    if h <= n { AtMonotone(pages, h, n); }
  }

  lemma NotPastReadable(pages: Pages, m: seq<bool>, n: nat, more: bool)
    requires n <= |pages| && n <= PAGES && |m| == |Flat(pages)| && NotPast(pages, m, n, more)
    ensures Readable(pages, m, Min(At(pages, n), POST_LIMIT))
  {
    hide Flat, At, FirstDone;
    var h := FirstDone(pages, m, 0);
    FlatPrefix(pages, n);
    AtMonotone(pages, n, Min(|pages|, PAGES));
    if h < |pages| { AtMonotone(pages, n, h + 1); }
  }

  /** A page whose posts were all taken and all found seen shows nothing unseen. */
  lemma PageTaken(pages: Pages, s: string, n: nat, list: seq<Post>)
    requires n < |pages| && list == Capped(Flat(pages[..n]) + pages[n])
    requires |Flat(pages[..n])| < POST_LIMIT
    requires forall i :: At(pages, n) <= i < |list| ==> Seen(s, list[i].id)
    ensures Covers(pages, Marks(Flat(pages), s), n + 1)
  {
    hide Flat, Seen, FirstDone;
    var m := Marks(Flat(pages), s);
    FlatStep(pages, n);
    FlatPrefix(pages, n + 1);
    if At(pages, n + 1) < POST_LIMIT {
      forall i | At(pages, n) <= i < At(pages, n + 1) && i < |m| ensures m[i] {
        assert Flat(pages)[i] == Flat(pages[..n + 1])[i] == list[i];
      }
      assert PageSeen(pages, m, n);
    }
  }

  /** The posts of the page that ends the reading are all seen. */
  lemma DonePage(pages: Pages, s: string, n: nat)
    requires n < |pages| && PageSeen(pages, Marks(Flat(pages), s), n)
    ensures forall i :: 0 <= i < |pages[n]| ==> Seen(s, pages[n][i].id)
  {
    hide Flat, Seen;
    FlatStep(pages, n);
    forall i | 0 <= i < |pages[n]| ensures Seen(s, pages[n][i].id) {
      PageAt(pages, n, i);
      assert Marks(Flat(pages), s)[At(pages, n) + i];
    }
  }

  /** While a burst is read: all of it is, or its first n pages are and page n is asked
      for next, or page n did not load. */
  ghost predicate Reading(pages: Pages, e: Env, from: nat, u: nat, n: nat, now: nat, more: bool) {
    && n <= |pages|
    && (|| (u <= At(pages, n) && forall l :: 0 <= l < |pages| && At(pages, l) < u ==> e.pageOk(from + 2 * l))
        || (&& At(pages, n) < u && (forall l :: 0 <= l < n ==> e.pageOk(from + 2 * l))
            && (if more then now == from + 2 * n else n < |pages| && !e.pageOk(from + 2 * n))))
  }

  lemma ReadingStart(pages: Pages, e: Env, from: nat, u: nat)
    ensures Reading(pages, e, from, u, 0, from, true)
  {
    assert At(pages, 0) == 0 by { FlatStart(pages); }
  }

  /** A page of the burst that does not load. */
  lemma ReadingMiss(pages: Pages, e: Env, from: nat, s: string, u: nat, n: nat, now: nat, to: nat)
    requires Reading(pages, e, from, u, n, now, true) && Ready(pages, s, u)
    requires !(n < |pages| && e.pageOk(now) && pages[n] != [])
    ensures Reading(pages, e, from, u, n, to, false)
  {
    hide Flat, At, Seen, Tidy;
    FlatPrefix(pages, |pages|);
  }

  /** A page of the burst that does. */
  lemma ReadingPage(pages: Pages, e: Env, from: nat, s: string, u: nat, n: nat, now: nat, to: nat, unseen: bool)
    requires Reading(pages, e, from, u, n, now, true) && Ready(pages, s, u) && n < |pages| && e.pageOk(now)
    requires pages[n] != [] && (!Seen(s, pages[n][0].id) ==> unseen && to == now + 2)
    ensures Reading(pages, e, from, u, n + 1, to, unseen && n + 1 < |pages|)
  {
    hide Flat, At, Seen, Tidy;
    FlatPrefix(pages, |pages|);
    FlatStep(pages, n);
    AtMonotone(pages, n, n + 1);
    PageAt(pages, n, 0);
    if At(pages, n) < u {
      assert !Marks(Flat(pages), s)[At(pages, n)];
      forall l | 0 <= l < |pages| && u <= At(pages, n + 1) && At(pages, l) < u ensures e.pageOk(from + 2 * l) {
        if l > n { AtMonotone(pages, n + 1, l); }
      }
    }
  }

  lemma ReadingEnd(pages: Pages, e: Env, from: nat, s: string, u: nat, n: nat, now: nat, more: bool)
    requires Reading(pages, e, from, u, n, now, more) && Ready(pages, s, u) && u <= Cap(pages)
    requires !more || n == PAGES || At(pages, n) >= POST_LIMIT
    ensures Fetched(pages, e, from, u, Min(At(pages, n), POST_LIMIT), n)
  {
    hide Flat, At, Seen, Tidy;
  }

  /** The list after n pages, and after one more. */
  lemma ListIs(pages: Pages, n: nat)
    requires n <= |pages|
    ensures var list := Capped(Flat(pages[..n]));
            && |list| == Min(At(pages, n), POST_LIMIT) && list <= Flat(pages)
            && (|list| < POST_LIMIT ==> list == Flat(pages[..n])) && (n == 0 ==> list == [])
            && (n < |pages| && |list| < POST_LIMIT ==> Capped(list + pages[n]) == Capped(Flat(pages[..n + 1])))
  {
    hide Flat;
    FlatStart(pages);
    FlatPrefix(pages, n);
    if n < |pages| { FlatStep(pages, n); }
  }

  lemma NotPastStart(pages: Pages, m: seq<bool>)
    ensures NotPast(pages, m, 0, true)
  {
    hide FirstDone;
  }

  lemma NotPastEnds(pages: Pages, m: seq<bool>, n: nat)
    ensures NotPast(pages, m, n, true) ==> NotPast(pages, m, n, false)
  {
    hide FirstDone;
  }

  /** A page without posts shows nothing unseen. */
  lemma EmptyCovers(pages: Pages, m: seq<bool>, n: nat)
    ensures n == |pages| || (n < |pages| && pages[n] == []) ==> Covers(pages, m, n)
  {
    hide FirstDone;
    if n < |pages| && pages[n] == [] {
      FlatStep(pages, n);
      assert PageSeen(pages, m, n);
    }
  }

  lemma CoversLimit(pages: Pages, m: seq<bool>, n: nat)
    ensures n <= |pages| && At(pages, n) >= POST_LIMIT ==> Covers(pages, m, n)
  {
    hide FirstDone;
  }

  lemma LastCovers(pages: Pages, m: seq<bool>, n: nat)
    ensures n == |pages| ==> Covers(pages, m, n)
  {
    hide FirstDone;
  }

  /** Reading one more page: past the first that shows nothing unseen only to stop. */
  lemma PageStep(pages: Pages, m: seq<bool>, s: string, n: nat)
    requires n < |pages| && m == Marks(Flat(pages), s) && NotPast(pages, m, n, true)
    ensures NotPast(pages, m, n + 1, false)
    ensures NotPast(pages, m, n + 1, true) || forall i :: 0 <= i < |pages[n]| ==> Seen(s, pages[n][i].id)
  {
    hide FirstDone, Seen, Flat, PageSeen, Marks;
    if FirstDone(pages, m, 0) == n { DonePage(pages, s, n); }
  }

  lemma StopsNone(board: seq<Post>, m: seq<bool>)
    ensures Stops(board, m, 0, 0)
  {
  }

  /** A pass whose pages all loaded. */
  lemma PassLoaded(pages: Pages, s: string, t: string, u: nat, n: nat, j: nat, walked: bool, sound: bool)
    requires Took(pages, s, t, n, j) && Tidy(pages, t) && n <= |Flat(pages)|
    requires walked ==> Reach(pages, Marks(Flat(pages), s)) <= n
    requires !walked ==> s == t && (sound ==> n == 0 && Reach(pages, Marks(Flat(pages), s)) == 0)
    requires walked && sound ==> Stops(Flat(pages), Marks(Flat(pages), s), j, n)
    ensures Advances(pages, s, t, 0) && (sound ==> Advances(pages, s, t, 1))
    ensures var v := if walked then Min(u, j) else u;
            Ready(pages, s, u) && u <= Cap(pages) ==>
              Ready(pages, t, v) && v <= u && (sound ==> v == 0 || u - v >= PER_PASS)
  {
    hide Took, Reach, Marks, Flat, Stops, Ready, Cap, Tidy;
    AdvancesSame(pages, s);
    if walked {
      PassAdvances(pages, s, t, n, j, false);
      if sound { PassAdvances(pages, s, t, n, j, true); }
    } else if sound {
      NothingNear(pages, s);
    }
    if Ready(pages, s, u) && u <= Cap(pages) {
      BurstReach(pages, s, u);
      if walked {
        PassOrder(pages, s, t, u, n, j);
        if sound { PassTakes(pages, s, u, n, j); }
      }
    }
  }

  lemma NearSeen(pages: Pages, s: string, list: seq<Post>)
    requires list <= Flat(pages) && Readable(pages, Marks(Flat(pages), s), |list|)
    ensures Reach(pages, Marks(Flat(pages), s)) == 0 ==> forall i :: 0 <= i < |list| ==> Seen(s, list[i].id)
  {
    hide Reach, Readable, Flat, Seen;
    var m := Marks(Flat(pages), s);
    if Reach(pages, m) == 0 {
      forall i | 0 <= i < |list| ensures Seen(s, list[i].id) {
        BeyondReach(pages, m, 0, |list|, i);
        assert list[i] == Flat(pages)[i];
      }
    }
  }

  lemma NothingNear(pages: Pages, s: string)
    requires Reach(pages, Marks(Flat(pages), s)) == 0
    ensures Advances(pages, s, s, 1)
  {
    hide Reach, Flat;
  }

  lemma BurstReach(pages: Pages, s: string, u: nat)
    requires Ready(pages, s, u) && u <= Cap(pages)
    ensures u <= Reach(pages, Marks(Flat(pages), s))
  {
    hide Reach, Flat, Cap, Tidy;
    OrderedReach(pages, Marks(Flat(pages), s), u);
  }

  /** A pass in which nothing failed but the load of pages. */
  lemma PassExact(pages: Pages, e: Env, now: nat, s: string, t: string, u: nat, n: nat, j: nat, k: nat)
    requires Took(pages, s, t, n, j) && Ready(pages, s, u) && n <= |Flat(pages)|
    requires Stops(Flat(pages), Marks(Flat(pages), s), j, n)
    requires Filled(pages) && pages != [] ==> (n == 0 <==> !e.pageOk(now))
    requires u <= Cap(pages) ==> Fetched(pages, e, now, u, n, k)
    ensures InOrder(pages, t) <==> Keeps(pages, e, now, u)
    ensures Hidden(pages, Marks(Flat(pages), t)) <==> Skips(pages, e, now, u)
    ensures u <= Cap(pages) ==>
              forall l :: 1 <= l < |pages| && MissesAt(pages, e, now, u, l) ==> ShortOf(pages, t, u, l)
  {
    hide Reach, Marks, Flat, Stops, Cap, Tidy, Fetched, MissesAt, InOrder, Keeps, Skips, Hidden, ShortOf;
    assert n <= Cap(pages);
    OrderIff(pages, e, now, s, t, u, n, j, k);
    SkipsIff(pages, e, now, s, t, u, n, j, k);
    forall l | 1 <= l < |pages| && MissesAt(pages, e, now, u, l) && u <= Cap(pages) ensures ShortOf(pages, t, u, l) {
      ShortAfter(pages, e, now, s, t, u, n, j, k, l);
    }
  }

  /* ---- many passes ------------------------------------------------------------------------------- */

  /** The unseen posts within reach. */
  ghost function Waiting(pages: Pages, s: string): nat {
    var m := Marks(Flat(pages), s);
    ReachBound(pages, m);
    Unseen(m, 0, Reach(pages, m))
  }

  lemma DrainAll(pages: Pages, s: string, t: string, k: nat)
    requires Confined(pages, s, t) && Advances(pages, s, t, k) && Waiting(pages, s) <= PER_PASS * k
    ensures TakesAll(pages, s, t)
  {
    hide Confined, Advances, TakesAll, Reach, Marks, Flat;
    AdvancesAll(pages, s, t, k);
  }

  /** A pass over a burst of u leaves no more than u waiting. */
  lemma WaitingBurst(pages: Pages, s: string, t: string, u: nat)
    requires Ready(pages, s, u) && Confined(pages, s, t)
    ensures Waiting(pages, t) <= u
  {
    hide Seen, Reach, Flat, Tidy;
    var m, n := Marks(Flat(pages), s), Marks(Flat(pages), t);
    var r := Reach(pages, n);
    ReachBound(pages, n);
    UnseenLength(m, u);
    UnseenSame(m, n, 0, |m|);
    UnseenSplit(n, 0, r, |m|);
  }

  ghost predicate AllSeen(pages: Pages, s: string) {
    forall i :: 0 <= i < |Flat(pages)| ==> Seen(s, Flat(pages)[i].id)
  }

  /** Of a burst of u, exactly the posts from page k on are unseen. */
  ghost predicate LeftFrom(pages: Pages, s: string, u: nat, k: nat) {
    k <= |pages| && forall i :: 0 <= i < |Flat(pages)| ==> (Seen(s, Flat(pages)[i].id) <==> i < At(pages, k) || i >= u)
  }

  lemma CutsElim(pages: Pages, e: Env, now: nat, u: nat, k: nat)
    requires Cuts(pages, e, now, u, k)
    ensures 1 <= k < |pages| && MissesAt(pages, e, now, u, k) && Skips(pages, e, now, u)
  {
  }

  lemma LeftAre(pages: Pages, s: string, t: string, u: nat, k: nat)
    requires ShortOf(pages, s, u, k) && TakesAll(pages, s, t) && Hidden(pages, Marks(Flat(pages), s)) && k < |pages|
    requires Filled(pages) && u <= Cap(pages)
    ensures LeftFrom(pages, t, u, k)
  {
    hide Seen, Reach, Flat, At, FirstDone;
    var m, n := Marks(Flat(pages), s), Marks(Flat(pages), t);
    ReachShort(pages, s, u, k);
    forall i | 0 <= i < |m| ensures n[i] <==> i < At(pages, k) || i >= u {
    }
  }

  lemma ReachShort(pages: Pages, s: string, u: nat, k: nat)
    requires ShortOf(pages, s, u, k) && Hidden(pages, Marks(Flat(pages), s)) && k < |pages|
    requires Filled(pages) && u <= Cap(pages)
    ensures Reach(pages, Marks(Flat(pages), s)) <= At(pages, k)
  {
    hide Seen, Flat, At, Cap, Marks, Reach;
    var m := Marks(Flat(pages), s);
    MarksLength(Flat(pages), s);
    var i :| Reach(pages, m) <= i < |m| && !m[i];
    assert At(pages, k) <= i < u;
    StartsBelow(pages, m, At(pages, k), u, i);
  }

  /** A page that shows nothing unseen does not begin among unseen posts. */
  lemma StartsBelow(pages: Pages, m: seq<bool>, a: nat, u: nat, i: nat)
    requires Filled(pages) && |m| == |Flat(pages)| && u <= Cap(pages) && Reach(pages, m) <= i < u && i < |m|
    requires forall x :: a <= x < u && x < |m| ==> !m[x]
    ensures Reach(pages, m) <= a
  {
    hide Flat, At, Cap, PageSeen, FirstDone;
    var g := FirstDone(pages, m, 0);
    FlatPrefix(pages, |pages|);
    assert At(pages, g) <= i && g < |pages|;
    PageStart(pages, m, g);
  }
}
