/** The public board as the inbox reads it: pages of posts, newest first, and which
    of the posts the ledger shows as seen. */
module InboxBoard {
  import opened InboxLedger

  const PAGES: nat := 17
  const POST_LIMIT: nat := 50
  const PER_PASS: nat := 4

  /** A board post: its id, whether it is a maintainer's own, whether it asks for
      a review. */
  datatype Post = Post(id: string, ours: bool, need: bool)

  type Pages = seq<seq<Post>>

  function Min(a: nat, b: nat): nat { if a < b then a else b }

  /* ---- pages ---------------------------------------------------------------------- */

  function Flat(pages: Pages): seq<Post> {
    if pages == [] then [] else pages[0] + Flat(pages[1..])
  }

  /** Where page k begins. */
  function At(pages: Pages, k: nat): nat
    requires k <= |pages|
  {
    |Flat(pages[..k])|
  }

  /** How many posts a pass reads at most. */
  function Cap(pages: Pages): nat { Min(At(pages, Min(|pages|, PAGES)), POST_LIMIT) }

  function Capped(list: seq<Post>): seq<Post> {
    if |list| <= POST_LIMIT then list else list[..POST_LIMIT]
  }

  ghost predicate Filled(pages: Pages) {
    forall k :: 0 <= k < |pages| ==> pages[k] != []
  }

  lemma FlatStart(pages: Pages)
    ensures Flat(pages[..0]) == [] && pages[..|pages|] == pages
  {
  }

  lemma {:induction false} FlatAppend(a: Pages, b: Pages)
    ensures Flat(a + b) == Flat(a) + Flat(b)
  {
    if a == [] {
      assert a + b == b;
    } else {
      assert (a + b)[1..] == a[1..] + b;
      FlatAppend(a[1..], b);
      assert a[0] + (Flat(a[1..]) + Flat(b)) == a[0] + Flat(a[1..]) + Flat(b);
    }
  }

  lemma FlatStep(pages: Pages, k: nat)
    requires k < |pages|
    ensures Flat(pages[..k + 1]) == Flat(pages[..k]) + pages[k]
    ensures At(pages, k + 1) == At(pages, k) + |pages[k]|
  {
    hide Flat;
    TakeMore(pages, k);
    FlatAppend(pages[..k], [pages[k]]);
    FlatOne(pages[k]);
  }

  lemma TakeMore<T>(s: seq<T>, k: nat)
    requires k < |s|
    ensures s[..k + 1] == s[..k] + [s[k]]
  {
  }

  lemma FlatPrefix(pages: Pages, k: nat)
    requires k <= |pages|
    ensures Flat(pages[..k]) <= Flat(pages) && At(pages, k) <= |Flat(pages)|
    ensures At(pages, |pages|) == |Flat(pages)|
  {
    hide Flat;
    var a, b := pages[..k], pages[k..];
    assert pages == a + b && pages[..|pages|] == pages;
    FlatAppend(a, b);
    Prefixed(Flat(a), Flat(b));
  }

  lemma Prefixed(x: seq<Post>, y: seq<Post>)
    ensures x <= x + y
  {
  }

  lemma FlatOne(page: seq<Post>)
    ensures Flat([page]) == page
  {
    assert [page][1..] == [];
  }

  lemma {:induction false} AtMonotone(pages: Pages, k: nat, l: nat)
    requires k <= l <= |pages|
    ensures At(pages, k) <= At(pages, l) && (Filled(pages) && k < l ==> At(pages, k) < At(pages, l))
    decreases l
  {
    hide At;
    if k < l {
      AtMonotone(pages, k, l - 1);
      FlatStep(pages, l - 1);
    }
  }

  /** The posts of page k stand from At(k) on. */
  lemma PageAt(pages: Pages, k: nat, i: nat)
    requires k < |pages| && i < |pages[k]|
    ensures At(pages, k) + i < |Flat(pages)| && Flat(pages)[At(pages, k) + i] == pages[k][i]
  {
    hide Flat;
    FlatStep(pages, k);
    FlatPrefix(pages, k + 1);
    var p := Flat(pages[..k + 1]);
    assert p[At(pages, k) + i] == pages[k][i];
  }

  /* ---- what is seen -------------------------------------------------------------------- */

  ghost predicate Orderly(board: seq<Post>) {
    && (forall i, j :: 0 <= i < j < |board| ==> board[i].id != board[j].id)
    && (forall i :: 0 <= i < |board| ==> ValidId(board[i].id))
  }

  function Marks(board: seq<Post>, s: string): (m: seq<bool>)
    ensures |m| == |board| && forall i :: 0 <= i < |m| ==> m[i] == Seen(s, board[i].id)
  {
    seq(|board|, i requires 0 <= i < |board| => Seen(s, board[i].id))
  }

  /** The posts from j to n are seen too. */
  function Taken(m: seq<bool>, j: nat, n: nat): (r: seq<bool>)
    ensures |r| == |m| && forall i :: 0 <= i < |m| ==> r[i] == (m[i] || j <= i < n)
  {
    seq(|m|, i requires 0 <= i < |m| => m[i] || j <= i < n)
  }

  /** Recording one unseen post of the board changes its mark only. */
  lemma MarkRow(board: seq<Post>, s: string, i: nat)
    requires Orderly(board) && Open(s) == 0 && i < |board|
    ensures Marks(board, s + Row(board[i].id)) == Marks(board, s)[i := true]
    ensures Open(s + Row(board[i].id)) == 0
  {
    hide Seen, Open, Row, ValidId;
    var id := board[i].id;
    AlignedRow(s, id);
    assert s + Row(id) != "" && (s + Row(id))[|s + Row(id)| - 1] == '\n' by { RowEnds(s, id); }
    EndsClosed(s + Row(id));
    var a, b := Marks(board, s + Row(id)), Marks(board, s)[i := true];
    forall k | 0 <= k < |board| ensures a[k] == b[k] {
      assert board[k].id == id <==> k == i;
    }
  }

  lemma RowEnds(s: string, id: string)
    ensures s + Row(id) != "" && (s + Row(id))[|s + Row(id)| - 1] == '\n'
  {
  }

  lemma TakenStep(m: seq<bool>, i: nat, n: nat)
    requires i < n <= |m|
    ensures Taken(m, i + 1, n)[i := true] == Taken(m, i, n)
    ensures m[i] ==> Taken(m, i + 1, n) == Taken(m, i, n)
    ensures Taken(m, i + 1, n)[i] == m[i]
  {
  }

  lemma TakenNone(m: seq<bool>, n: nat)
    ensures Taken(m, n, n) == m
  {
  }

  /* ---- order --------------------------------------------------------------------------- */

  /** The board is newest first: the seen posts are exactly those from v on. */
  ghost predicate Ordered(m: seq<bool>, v: nat) {
    v <= |m| && forall i :: 0 <= i < |m| ==> (m[i] <==> i >= v)
  }

  lemma OrderKept(m: seq<bool>, u: nat, j: nat, n: nat)
    requires Ordered(m, u) && u <= n <= |m| && j <= n
    ensures Ordered(Taken(m, j, n), Min(u, j))
  {
  }

  lemma OrderLost(m: seq<bool>, u: nat, j: nat, n: nat, v: nat)
    requires Ordered(m, u) && j < n < u
    ensures !Ordered(Taken(m, j, n), v)
  {
    var t := Taken(m, j, n);
    assert t[n - 1] && !t[u - 1];
  }

  /* ---- how far a pass reads -------------------------------------------------------------- */

  ghost predicate PageSeen(pages: Pages, m: seq<bool>, k: nat)
    requires k < |pages|
  {
    forall i :: At(pages, k) <= i < At(pages, k + 1) && i < |m| ==> m[i]
  }

  /** The first page from k on that shows nothing unseen, if there is one. */
  ghost function FirstDone(pages: Pages, m: seq<bool>, k: nat): (h: nat)
    requires k <= |pages|
    ensures k <= h <= |pages|
    ensures h < |pages| ==> PageSeen(pages, m, h)
    ensures forall l :: k <= l < h ==> !PageSeen(pages, m, l)
    decreases |pages| - k
  {
    if k == |pages| || PageSeen(pages, m, k) then k else FirstDone(pages, m, k + 1)
  }

  /** Passes can take up the posts before this one. */
  ghost function Reach(pages: Pages, m: seq<bool>): nat {
    Min(At(pages, FirstDone(pages, m, 0)), Cap(pages))
  }

  /** An unseen post that no pass can take up. */
  ghost predicate Hidden(pages: Pages, m: seq<bool>) {
    exists i :: Reach(pages, m) <= i < |m| && !m[i]
  }

  /** That is one past the limits, or past a page that shows nothing unseen. */
  lemma HiddenIff(pages: Pages, m: seq<bool>)
    requires |m| == |Flat(pages)|
    ensures Hidden(pages, m) <==>
              exists i :: 0 <= i < |m| && !m[i] && (i >= Cap(pages) || PastDone(pages, m, i))
  {
    hide Flat, At, Cap;
    var h := FirstDone(pages, m, 0);
    FlatPrefix(pages, |pages|);
    if i :| Reach(pages, m) <= i < |m| && !m[i] {
      if i < Cap(pages) {
        AtMonotone(pages, h, |pages|);
        assert h < |pages|;
        assert PastDone(pages, m, i);
      }
    }
    if i :| 0 <= i < |m| && !m[i] && (i >= Cap(pages) || PastDone(pages, m, i)) {
      if PastDone(pages, m, i) {
        var k :| 0 <= k < |pages| && At(pages, k) <= i && PageSeen(pages, m, k);
        assert h <= k;
        AtMonotone(pages, h, k);
      }
      assert Reach(pages, m) <= i;
    }
  }

  ghost predicate PastDone(pages: Pages, m: seq<bool>, i: nat) {
    exists k :: 0 <= k < |pages| && At(pages, k) <= i && PageSeen(pages, m, k)
  }

  /** Seeing more never extends the reach. */
  lemma ReachShrinks(pages: Pages, m: seq<bool>, t: seq<bool>)
    requires |t| == |m| && forall i :: 0 <= i < |m| && m[i] ==> t[i]
    ensures Reach(pages, t) <= Reach(pages, m)
  {
    hide At, Cap;
    var h, g := FirstDone(pages, m, 0), FirstDone(pages, t, 0);
    if h < |pages| { assert PageSeen(pages, t, h); }
    assert g <= h;
    AtMonotone(pages, g, h);
  }

  /** The first n posts are no more than a pass reads. */
  ghost predicate Readable(pages: Pages, m: seq<bool>, n: nat) {
    var h := FirstDone(pages, m, 0);
    n <= Cap(pages) && n <= |m| && (h < |pages| ==> n <= At(pages, h + 1))
  }

  /** Posts out of reach are left alone. */
  lemma BeyondReach(pages: Pages, m: seq<bool>, j: nat, n: nat, i: nat)
    requires |m| == |Flat(pages)| && Readable(pages, m, n) && Reach(pages, m) <= i < |m|
    ensures Taken(m, j, n)[i] == m[i]
    ensures i < n ==> m[i]
  {
    hide Cap, At, Flat;
    FlatPrefix(pages, |pages|);
    var h := FirstDone(pages, m, 0);
    if i < n {
      assert At(pages, h) <= i;
      assert h < |pages| && PageSeen(pages, m, h);
    }
  }

  lemma ReachBound(pages: Pages, m: seq<bool>)
    requires |m| == |Flat(pages)|
    ensures Reach(pages, m) <= |m| && Reach(pages, m) <= Cap(pages)
  {
    FlatPrefix(pages, FirstDone(pages, m, 0));
  }

  /** What falls out of reach when the posts within it were read is seen. */
  lemma ReachTaken(pages: Pages, m: seq<bool>, j: nat, n: nat, i: nat)
    requires |m| == |Flat(pages)| && Reach(pages, m) <= n <= |m|
    requires Reach(pages, Taken(m, j, n)) <= i < Reach(pages, m)
    ensures Taken(m, j, n)[i]
  {
    hide At, Cap, Flat;
    var t := Taken(m, j, n);
    FlatPrefix(pages, |pages|);
    if i < j {
      var h, g := FirstDone(pages, m, 0), FirstDone(pages, t, 0);
      assert At(pages, g) <= i < At(pages, h);
      if g >= h { AtMonotone(pages, h, g); }
      assert g < h && !PageSeen(pages, m, g) && PageSeen(pages, t, g);
      var x :| At(pages, g) <= x < At(pages, g + 1) && x < |m| && !m[x];
      assert t[x];
    }
  }

  /* ---- counting ------------------------------------------------------------------------------ */

  function Unseen(m: seq<bool>, a: nat, b: nat): nat
    requires b <= |m|
    decreases b - a
  {
    if a >= b then 0 else (if m[a] then 0 else 1) + Unseen(m, a + 1, b)
  }

  lemma {:induction false} UnseenSplit(m: seq<bool>, a: nat, b: nat, c: nat)
    requires a <= b <= c <= |m|
    ensures Unseen(m, a, c) == Unseen(m, a, b) + Unseen(m, b, c)
    decreases b - a
  {
    if a < b { UnseenSplit(m, a + 1, b, c); }
  }

  lemma {:induction false} UnseenNone(m: seq<bool>, a: nat, b: nat)
    requires b <= |m|
    ensures Unseen(m, a, b) == 0 <==> forall i :: a <= i < b ==> m[i]
    decreases b - a
  {
    if a < b {
      UnseenNone(m, a + 1, b);
    }
  }

  lemma {:induction false} UnseenSame(m: seq<bool>, t: seq<bool>, a: nat, b: nat)
    requires b <= |m| && |t| == |m| && forall i :: a <= i < b ==> (m[i] ==> t[i])
    ensures Unseen(t, a, b) <= Unseen(m, a, b)
    ensures (forall i :: a <= i < b ==> m[i] == t[i]) ==> Unseen(t, a, b) == Unseen(m, a, b)
    decreases b - a
  {
    if a < b { UnseenSame(m, t, a + 1, b); }
  }

  lemma {:induction false} UnseenLength(m: seq<bool>, u: nat)
    requires Ordered(m, u)
    ensures Unseen(m, 0, |m|) == u
  {
    UnseenSplit(m, 0, u, |m|);
    UnseenNone(m, u, |m|);
    AllUnseen(m, 0, u);
  }

  lemma {:induction false} AllUnseen(m: seq<bool>, a: nat, b: nat)
    requires a <= b <= |m| && forall i :: a <= i < b ==> !m[i]
    ensures Unseen(m, a, b) == b - a
    decreases b - a
  {
    if a < b { AllUnseen(m, a + 1, b); }
  }

  /** Unseen posts from a to b that use a slot. */
  function Slots(board: seq<Post>, m: seq<bool>, a: nat, b: nat): nat
    requires b <= |m| && b <= |board|
    decreases b - a
  {
    if a >= b then 0 else (if m[a] || board[a].ours then 0 else 1) + Slots(board, m, a + 1, b)
  }

  lemma {:induction false} SlotsUnseen(board: seq<Post>, m: seq<bool>, a: nat, b: nat)
    requires b <= |m| && b <= |board|
    ensures Slots(board, m, a, b) <= Unseen(m, a, b)
    decreases b - a
  {
    if a < b { SlotsUnseen(board, m, a + 1, b); }
  }

  lemma {:induction false} SlotsShrink(board: seq<Post>, m: seq<bool>, a: nat, b: nat, c: nat)
    requires a <= b && c <= |m| && c <= |board|
    ensures Slots(board, m, b, c) <= Slots(board, m, a, c)
    decreases b - a
  {
    if a < b { SlotsShrink(board, m, a + 1, b, c); }
  }

  /** Posts that are not a maintainer's own. */
  function Others(list: seq<Post>): nat {
    if list == [] then 0 else (if list[0].ours then 0 else 1) + Others(list[1..])
  }

  lemma {:induction false} SlotsOthers(board: seq<Post>, m: seq<bool>, a: nat, b: nat)
    requires a <= b <= |m| && b <= |board| && forall i :: a <= i < b ==> !m[i]
    ensures Slots(board, m, a, b) == Others(board[a..b])
    decreases b - a
  {
    if a < b {
      SlotsOthers(board, m, a + 1, b);
      assert board[a..b][1..] == board[a + 1..b];
    }
  }

  /** Where a walk down from n stops when nothing fails: with its last slot used, or
      at the end. */
  ghost predicate Stops(board: seq<Post>, m: seq<bool>, j: nat, n: nat)
    requires n <= |m| && n <= |board|
  {
    j <= n && (j == 0 || Slots(board, m, j, n) >= PER_PASS) && (j < n ==> Slots(board, m, j + 1, n) < PER_PASS)
  }

  /** A walk that read all within reach takes four posts or leaves none. */
  lemma StopProgress(pages: Pages, board: seq<Post>, m: seq<bool>, j: nat, n: nat)
    requires |m| == |board| == |Flat(pages)| && Readable(pages, m, n) && Reach(pages, m) <= n && Stops(board, m, j, n)
    ensures var (r, t) := (Reach(pages, m), Taken(m, j, n));
            r <= |m| && (Unseen(t, 0, r) == 0 || Unseen(t, 0, r) + PER_PASS <= Unseen(m, 0, r))
  {
    hide Flat, At, Cap, Reach, FirstDone;
    var r, t := Reach(pages, m), Taken(m, j, n);
    ReachBound(pages, m);
    UnseenNone(t, 0, r);
    if j > 0 {
      SlotsUnseen(board, m, j, n);
      forall i | r <= i < n ensures m[i] {
        BeyondReach(pages, m, 0, n, i);
      }
      UnseenNone(m, r, n);
      UnseenSplit(m, j, if j < r then r else j, n);
      if j >= r {
        UnseenNone(m, j, n);
      } else {
        UnseenSplit(m, 0, j, r);
        UnseenSplit(t, 0, j, r);
        UnseenNone(t, j, r);
        UnseenSame(m, t, 0, j);
      }
    }
  }

  /** Unseen posts that all come first are within reach, up to the limits. */
  lemma OrderedReach(pages: Pages, m: seq<bool>, v: nat)
    requires Filled(pages) && |m| == |Flat(pages)| && Ordered(m, v) && v <= Cap(pages)
    ensures v <= Reach(pages, m) && !Hidden(pages, m)
  {
    hide Flat, Cap;
    var h := FirstDone(pages, m, 0);
    FlatPrefix(pages, |pages|);
    if h < |pages| {
      FlatStep(pages, h);
      FlatPrefix(pages, h + 1);
      assert m[At(pages, h)];
    }
  }

  /** Past the limits nothing is ever read. */
  lemma HiddenBeyond(pages: Pages, m: seq<bool>, j: nat, n: nat, u: nat)
    requires Ordered(m, u) && n <= Cap(pages) < u
    ensures Hidden(pages, Taken(m, j, n))
  {
    hide Cap;
    assert !Taken(m, j, n)[u - 1];
  }

  /** A pass that read only the pages before k, all unseen, leaves the older posts
      out of reach exactly if it took all of page k - 1. */
  lemma HiddenShort(pages: Pages, m: seq<bool>, u: nat, k: nat, j: nat)
    requires Filled(pages) && |m| == |Flat(pages)| && Ordered(m, u) && u <= Cap(pages)
    requires 1 <= k < |pages| && At(pages, k) < u && Stops(Flat(pages), m, j, At(pages, k))
    ensures Hidden(pages, Taken(m, j, At(pages, k))) <==> Others(pages[k - 1][1..]) < PER_PASS
  {
    hide Flat, At, Cap, Stops, Slots, Hidden, Others;
    var a, n := At(pages, k - 1), At(pages, k);
    ShortStop(pages, m, k, j);
    if j <= a {
      ShortHidden(pages, m, u, k, j);
    } else {
      ShortOpen(pages, m, u, k, j);
    }
  }

  lemma ShortStop(pages: Pages, m: seq<bool>, k: nat, j: nat)
    requires Filled(pages) && |m| == |Flat(pages)| && 1 <= k < |pages| && At(pages, k) <= |m|
    requires Stops(Flat(pages), m, j, At(pages, k))
    requires forall i :: 0 <= i < At(pages, k) ==> !m[i]
    ensures j <= At(pages, k - 1) <==> Others(pages[k - 1][1..]) < PER_PASS
  {
    hide Flat, Others, Slots;
    var board := Flat(pages);
    var a, n := At(pages, k - 1), At(pages, k);
    FlatStep(pages, k - 1);
    FlatPrefix(pages, k);
    assert board[a + 1..n] == pages[k - 1][1..] by {
      assert board[..n] == Flat(pages[..k]);
      assert Flat(pages[..k])[a + 1..n] == pages[k - 1][1..];
      assert board[..n][a + 1..n] == board[a + 1..n];
    }
    SlotsOthers(board, m, a + 1, n);
    if j <= a {
      SlotsShrink(board, m, j + 1, a + 1, n);
    } else {
      SlotsShrink(board, m, a + 1, j, n);
    }
  }

  lemma ShortHidden(pages: Pages, m: seq<bool>, u: nat, k: nat, j: nat)
    requires |m| == |Flat(pages)| && Ordered(m, u) && u <= Cap(pages)
    requires 1 <= k < |pages| && At(pages, k) < u && j <= At(pages, k - 1)
    ensures Hidden(pages, Taken(m, j, At(pages, k)))
  {
    hide Flat, At, Cap;
    var n := At(pages, k);
    var t := Taken(m, j, n);
    assert PageSeen(pages, t, k - 1);
    var g := FirstDone(pages, t, 0);
    AtMonotone(pages, g, k - 1);
    AtMonotone(pages, k - 1, k);
    assert Reach(pages, t) <= n && !t[n];
  }

  lemma ShortOpen(pages: Pages, m: seq<bool>, u: nat, k: nat, j: nat)
    requires Filled(pages) && |m| == |Flat(pages)| && Ordered(m, u) && u <= Cap(pages)
    requires 1 <= k < |pages| && At(pages, k) < u && At(pages, k - 1) < j
    ensures !Hidden(pages, Taken(m, j, At(pages, k)))
  {
    hide Flat, At, Cap;
    var n := At(pages, k);
    var t := Taken(m, j, n);
    var g := FirstDone(pages, t, 0);
    FlatPrefix(pages, |pages|);
    if g < |pages| {
      AtMonotone(pages, k - 1, k);
      if g < k { AtMonotone(pages, g, k - 1); }
      if g >= k { AtMonotone(pages, k, g); }
      PageStart(pages, t, g);
      assert At(pages, g) >= u;
    }
  }

  lemma PageStart(pages: Pages, m: seq<bool>, k: nat)
    requires Filled(pages) && |m| == |Flat(pages)| && k < |pages| && PageSeen(pages, m, k)
    ensures At(pages, k) < |m| && m[At(pages, k)]
  {
    hide Flat;
    FlatStep(pages, k);
    FlatPrefix(pages, k + 1);
  }
}
