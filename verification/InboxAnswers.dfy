/** What becomes of the posts a pass takes up. */
module InboxAnswers {
  import opened InboxLedger
  import opened InboxBoard
  import opened InboxPass

  /** A post and the time its work was asked for. */
  datatype Dealt = Dealt(post: Post, when: nat)

  /** Answered: not a need, the work gave an answer, and the answer went out. */
  predicate Answers(e: Env, d: Dealt) {
    !d.post.need && e.work(d.when) == Answer && e.postOk(d.when)
  }

  /** The row of id is appended whole, and the process lives on. */
  predicate Recordable(e: Env, id: string, when: nat) {
    e.written(when) >= |Row(id)| && e.appendOk(when) && !e.crash(when)
  }

  /* What taking up a post leaves behind. The public post is tried at the time the
     work is done; an escalate row is written right after it. */

  predicate Survives(e: Env, d: Dealt) {
    !e.crash(d.when) && (Answers(e, d) || !e.crash(d.when + 1))
  }

  predicate Fails(e: Env, d: Dealt) {
    Survives(e, d) && !Answers(e, d) && !e.appendOk(d.when + 1)
  }

  function PostedBy(e: Env, d: Dealt): seq<string> {
    if e.crash(d.when) then [] else [d.post.id]
  }

  function AnsweredBy(e: Env, d: Dealt): seq<string> {
    if Survives(e, d) && Answers(e, d) then [d.post.id] else []
  }

  function EscalatedBy(e: Env, d: Dealt): seq<string> {
    if Survives(e, d) && !Answers(e, d) && e.appendOk(d.when + 1) then [d.post.id] else []
  }

  function Ids(ds: seq<Dealt>): (ids: seq<string>)
    ensures |ids| == |ds|
  {
    if ds == [] then [] else Ids(ds[..|ds| - 1]) + [ds[|ds| - 1].post.id]
  }

  /** The ids, in order, of those that were answered, or of those that were not. */
  function IdsOf(e: Env, ds: seq<Dealt>, answered: bool): seq<string> {
    if ds == [] then []
    else
      var last := ds[|ds| - 1];
      IdsOf(e, ds[..|ds| - 1], answered) + (if Answers(e, last) == answered then [last.post.id] else [])
  }

  /** The three records of a pass. */
  datatype Records = Records(answered: seq<string>, escalated: seq<string>, posts: seq<string>)

  /** What dealing with those posts adds to the records; nothing else was posted if
      the pass is still going. */
  ghost predicate Tally(e: Env, r: Records, now: Records, ds: seq<Dealt>, going: bool) {
    && now.answered == r.answered + IdsOf(e, ds, true)
    && now.escalated == r.escalated + IdsOf(e, ds, false)
    && (going ==> now.posts == r.posts + Ids(ds))
  }

  lemma TallyNone(e: Env, r: Records, going: bool)
    ensures Tally(e, r, r, [], going)
  {
  }

  /** A post dealt with to the end adds its id; one cut short adds none. */
  lemma TallyStep(e: Env, r: Records, now: Records, ds: seq<Dealt>, d: Dealt)
    requires Tally(e, r, now, ds, true)
    ensures var next := Records(now.answered + AnsweredBy(e, d), now.escalated + EscalatedBy(e, d),
                                now.posts + PostedBy(e, d));
            Tally(e, r, next, if Survives(e, d) && !Fails(e, d) then ds + [d] else ds,
                  Survives(e, d) && !Fails(e, d))
  {
    assert (ds + [d])[..|ds|] == ds;
  }

  lemma TallyStops(e: Env, r: Records, now: Records, ds: seq<Dealt>)
    requires Tally(e, r, now, ds, true)
    ensures Tally(e, r, now, ds, false)
  {
  }

  /* No id is answered or escalated more often than posted. */

  ghost predicate Accounts(answered: seq<string>, escalated: seq<string>, posts: seq<string>) {
    forall id :: multiset(answered)[id] + multiset(escalated)[id] <= multiset(posts)[id]
  }

  /** A post for id is not accounted for yet. */
  ghost predicate Due(id: string, answered: seq<string>, escalated: seq<string>, posts: seq<string>) {
    multiset(answered)[id] + multiset(escalated)[id] < multiset(posts)[id]
  }

  lemma PostIsDue(id: string, a: seq<string>, x: seq<string>, p: seq<string>)
    requires Accounts(a, x, p)
    ensures Accounts(a, x, p + [id]) && Due(id, a, x, p + [id])
  {
  }

  lemma Account(id: string, a: seq<string>, x: seq<string>, p: seq<string>)
    requires Accounts(a, x, p) && Due(id, a, x, p)
    ensures Accounts(a + [id], x, p) && Accounts(a, x + [id], p)
  {
  }

  /** The posts dealt with are the unseen ones of others in the list from i on, oldest first. */
  ghost predicate Takes(board: seq<Post>, m: seq<bool>, i: nat, n: nat, ds: seq<Dealt>)
    requires n <= |m| && n <= |board|
    decreases n - i
  {
    if i >= n then ds == []
    else if m[i] || board[i].ours then Takes(board, m, i + 1, n, ds)
    else ds != [] && ds[|ds| - 1].post == board[i] && Takes(board, m, i + 1, n, ds[..|ds| - 1])
  }

  /** A walk in which nothing failed, having come down to post i. */
  ghost predicate Going(board: seq<Post>, m: seq<bool>, i: nat, n: nat, handled: nat, ds: seq<Dealt>) {
    && i <= n <= |m| && n <= |board|
    && handled == Slots(board, m, i, n) && (i < n ==> Slots(board, m, i + 1, n) < PER_PASS)
    && Takes(board, m, i, n, ds)
  }

  lemma GoingStart(board: seq<Post>, m: seq<bool>, n: nat)
    requires n <= |m| && n <= |board|
    ensures Going(board, m, n, n, 0, [])
  {
  }

  lemma GoingStep(board: seq<Post>, m: seq<bool>, i: nat, n: nat, handled: nat, ds: seq<Dealt>, d: Dealt)
    requires i < n && Going(board, m, i + 1, n, handled, ds) && handled < PER_PASS && d.post == board[i]
    ensures m[i] || board[i].ours ==> Going(board, m, i, n, handled, ds)
    ensures !(m[i] || board[i].ours) ==> Going(board, m, i, n, handled + 1, ds + [d])
  {
    assert (ds + [d])[..|ds|] == ds;
  }

  lemma GoingElim(board: seq<Post>, m: seq<bool>, i: nat, n: nat, handled: nat, ds: seq<Dealt>)
    requires Going(board, m, i, n, handled, ds)
    ensures n <= |m| && n <= |board| && Takes(board, m, i, n, ds)
    ensures handled >= PER_PASS || i == 0 ==> Stops(board, m, i, n)
  {
  }

  /** Taking up post i when the list from i + 1 on has been dealt with. */
  lemma WalkStep(board: seq<Post>, m: seq<bool>, s: string, i: nat, n: nat)
    requires Orderly(board) && i < n <= |board| && |m| == |board|
    requires Marks(board, s) == Taken(m, i + 1, n) && Open(s) == 0
    ensures ValidId(board[i].id) && (Seen(s, board[i].id) <==> m[i])
    ensures Marks(board, s + Row(board[i].id)) == Taken(m, i, n) && Open(s + Row(board[i].id)) == 0
    ensures m[i] ==> Marks(board, s) == Taken(m, i, n)
  {
    hide Seen, Open, ValidId, Row;
    MarkRow(board, s, i);
    TakenStep(m, i, n);
    assert Marks(board, s)[i] == Seen(s, board[i].id);
  }

  /* ---- the walk ---------------------------------------------------------------------- */

  /** What a walk starts from: the first n posts of a board at a time. */
  datatype Walk = Walk(env: Env, board: seq<Post>, n: nat, from: nat, start: string, log: Records, m: seq<bool>)

  ghost function Start(e: Env, board: seq<Post>, n: nat, from: nat, s: string, log: Records): Walk {
    Walk(e, board, n, from, s, log, Marks(board, s))
  }

  ghost predicate Tidily(w: Walk) {
    Orderly(w.board) && Open(w.start) == 0
  }

  /** Nothing in the list is unseen. */
  ghost predicate Dull(w: Walk) {
    w.n <= |w.board| && forall k :: 0 <= k < w.n ==> Seen(w.start, w.board[k].id)
  }

  /** A walk that has come down to post i and recorded the unseen posts from j on. */
  ghost predicate Walking(w: Walk, i: nat, j: nat, handled: nat, ds: seq<Dealt>, now: nat, s: string, log: Records,
                          going: bool)
  {
    && i <= j <= w.n <= |w.board| && |w.m| == |w.board| && w.from <= now && |ds| <= handled <= PER_PASS
    && (going ==> j == i) && (Sound(w.env, w.from, now) ==> going)
    && Tally(w.env, w.log, log, ds, going)
    && (Tidily(w) && Whole(w.env, w.from, now) ==> Marks(w.board, s) == Taken(w.m, j, w.n) && Open(s) == 0)
    && (Tidily(w) && Sound(w.env, w.from, now) ==> Going(w.board, w.m, i, w.n, handled, ds))
    && (Dull(w) ==> s == w.start && log.posts == w.log.posts)
  }

  lemma WalkStarts(w: Walk, now: nat)
    requires w.n <= |w.board| && w.from == now && w.m == Marks(w.board, w.start)
    ensures Walking(w, w.n, w.n, 0, [], now, w.start, w.log, true)
  {
    hide Marks, Taken, Going, Tally, Orderly, Open, Seen;
    MarksLength(w.board, w.start);
    TakenNone(w.m, w.n);
    GoingStart(w.board, w.m, w.n);
    TallyNone(w.env, w.log, true);
  }

  /** The thread is put together first; a walk whose thread does not fit stops there. */
  lemma WalkEntered(w: Walk, now: nat, fits: bool)
    requires now == w.from + 1 && fits == w.env.threadFits(w.from)
    requires Walking(w, w.n, w.n, 0, [], w.from, w.start, w.log, true)
    ensures Walking(w, w.n, w.n, 0, [], now, w.start, w.log, fits)
  {
    hide Marks, Taken, Going, Tally, Orderly, Open, Seen, Dull, Sound, Whole, Tidily;
    SoundFits(w.env, w.from, now);
    Meanwhile(w.env, w.from, w.from, w.from, now);
    TallyStops(w.env, w.log, w.log, []);
  }

  /** One turn: the post is added to those dealt with unless it used no slot or its
      handling was cut short. */
  lemma WalkTurn(w: Walk, i: nat, j: nat, handled: nat, ds: seq<Dealt>, now: nat, s: string, log: Records,
                 later: nat, t: string, after: Records, slot: bool, going: bool)
    requires Walking(w, i + 1, j, handled, ds, now, s, log, true) && now <= later && handled < PER_PASS
    requires var (e, id, d) := (w.env, w.board[i].id, Dealt(w.board[i], now + 2));
             && (Seen(s, id) ==> t == s && !slot)
             && (Whole(e, now, later) ==> t == s || t == s + Row(id))
             && (ValidId(id) && !Seen(s, id) && going ==> t == s + Row(id))
             && (Sound(e, now, later) ==> going)
             && (Sound(e, now, later) && ValidId(id) ==> slot == (!Seen(s, id) && !w.board[i].ours))
             && (!slot ==> after == log)
             && (slot ==> going == (Survives(e, d) && !Fails(e, d))
                          && after == Records(log.answered + AnsweredBy(e, d), log.escalated + EscalatedBy(e, d),
                                              log.posts + PostedBy(e, d)))
    ensures Walking(w, i, if t != s || going then i else j, if slot then handled + 1 else handled,
                    if slot && going then ds + [Dealt(w.board[i], now + 2)] else ds, later, t, after, going)
  {
    hide Orderly, Marks, Taken, Open, Seen, ValidId, Row, Going, Tally, Sound, Whole, Survives, Fails, AnsweredBy,
      EscalatedBy, PostedBy;
    var e, d := w.env, Dealt(w.board[i], now + 2);
    Meanwhile(e, w.from, w.from, now, later);
    Meanwhile(e, w.from, now, later, later);
    SoundIsWhole(e, w.from, later);
    TallyStep(e, w.log, log, ds, d);
    TallyStops(e, w.log, log, ds);
    if Tidily(w) && Whole(e, w.from, later) {
      WalkStep(w.board, w.m, s, i, w.n);
      if Sound(e, w.from, later) { GoingStep(w.board, w.m, i, w.n, handled, ds, d); }
    }
  }

  lemma WalkEnds(w: Walk, i: nat, j: nat, handled: nat, ds: seq<Dealt>, now: nat, s: string, log: Records, going: bool)
    requires Walking(w, i, j, handled, ds, now, s, log, going)
    ensures j <= w.n <= |w.board| && |w.m| == |w.board| && |ds| <= PER_PASS && Tally(w.env, w.log, log, ds, going)
    ensures Sound(w.env, w.from, now) ==> going
    ensures Whole(w.env, w.from, now) && Tidily(w) ==> Marks(w.board, s) == Taken(w.m, j, w.n) && Open(s) == 0
    ensures Sound(w.env, w.from, now) && Tidily(w) ==> Takes(w.board, w.m, j, w.n, ds)
    ensures Sound(w.env, w.from, now) && Tidily(w) && (handled >= PER_PASS || i == 0 || !going) ==>
              Stops(w.board, w.m, j, w.n)
    ensures Dull(w) ==> s == w.start && log.posts == w.log.posts
  {
    hide Orderly, Marks, Taken, Open, Seen, Going, Tally, Sound, Whole, Takes, Stops;
    SoundIsWhole(w.env, w.from, now);
    if Sound(w.env, w.from, now) && Tidily(w) { GoingElim(w.board, w.m, i, w.n, handled, ds); }
  }
}
