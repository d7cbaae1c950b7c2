/** contrib_inbox: passes over the public board. Everything outside the program
    (reads, appends, posts, the model, a crash) is an arbitrary environment,
    asked once per use. */
module Inbox {
  import opened InboxLedger
  import opened InboxBoard
  import opened InboxPass
  import opened InboxAnswers

  class Inbox {
    const env: Env
    const start: string
    var clock: nat
    var ledger: string
    var ioFail: bool
    var alive: bool
    var posts: seq<string>
    var answered: seq<string>
    var escalated: seq<string>
    ghost var turns: seq<Turn>

    /** The ledger and the posts are those of a run of the protocol, and nothing is
        answered or escalated without a post for it. */
    ghost predicate Valid()
      reads this
    {
      && ValidRun(start, turns) && ledger == Ledger(start, turns)
      && (forall id :: multiset(posts)[id] == Attempts(turns, id))
      && Accounts(answered, escalated, posts)
    }

    constructor (env: Env, start: string)
      ensures Valid() && this.env == env && this.start == start && ledger == start && turns == [] && posts == []
      ensures alive && !ioFail && clock == 0 && answered == [] && escalated == []
    {
      this.env, this.start, clock, ledger := env, start, 0, start;
      ioFail, alive := false, true;
      posts, answered, escalated, turns := [], [], [], [];
    }

    ghost function Log(): Records
      reads this
    {
      Records(answered, escalated, posts)
    }

    /** ci_seen: an unreadable ledger counts as seen and fails the pass. */
    method CheckSeen(id: string) returns (seen: bool)
      requires Valid()
      modifies this`clock, this`ioFail
      ensures Valid() && clock == old(clock) + 1
      ensures seen == (Seen(ledger, id) || !env.readable(old(clock)))
      ensures ioFail == (old(ioFail) || !env.readable(old(clock)))
    {
      hide ValidRun, Ledger, Attempts, Seen, Accounts;
      var ok := env.readable(clock);
      clock := clock + 1;
      if !ok { ioFail := true; }
      seen := !ok || Seen(ledger, id);
    }

    /** ci_mark_seen: the row may stop part-way, and the process may die. */
    method MarkSeen(id: string) returns (ok: bool, ghost t: Turn)
      requires Valid() && alive && ValidId(id) && !Seen(ledger, id)
      modifies this`clock, this`ioFail, this`alive, this`ledger, this`turns
      ensures Valid() && clock == old(clock) + 1
      ensures turns == old(turns) + [t] && t.id == id && ValidTurn(old(ledger), t) && !t.posted
        && ledger == After(old(ledger), t)
      ensures alive == !env.crash(old(clock)) && t.written == Min(env.written(old(clock)), |Row(id)|)
      ensures ok == (alive && t.written == |Row(id)| && env.appendOk(old(clock)))
      ensures ioFail == (old(ioFail) || (alive && !ok))
      ensures Whole(env, old(clock), clock) ==> t.written == 0 || t.written == |Row(id)|
      ensures Sound(env, old(clock), clock) ==> ok
    {
      hide ValidRun, Ledger, Attempts, Torn, Seen, Accounts;
      var row := Row(id);
      var w := env.written(clock);
      if w > |row| { w := |row|; }
      ok := w == |row| && env.appendOk(clock);
      t := Turn(id, w, false);
      RunAppend(start, turns, t);
      ledger := ledger + row[..w];
      turns := turns + [t];
      if env.crash(clock) { alive, ok := false, false; }
      if alive && !ok { ioFail := true; }
      clock := clock + 1;
    }

    /** The last turn recorded id in full, and no post was tried for it yet. */
    ghost predicate Recorded(id: string, rest: seq<Turn>, t: Turn)
      reads this
    {
      && Valid() && alive && turns == rest + [t] && t.id == id && !t.posted && t.written == |Row(id)|
      && ValidRun(start, rest) && ValidTurn(Ledger(start, rest), t)
      && forall x :: multiset(posts)[x] == Attempts(rest, x)
    }

    /** ci_post for the post just recorded: one attempt, unless the process dies
        before it. */
    method PublicPost(id: string, ghost rest: seq<Turn>, ghost t: Turn) returns (ok: bool)
      requires Recorded(id, rest, t)
      modifies this`clock, this`alive, this`posts, this`turns
      ensures Valid() && clock == old(clock) + 1 && alive == !env.crash(old(clock))
      ensures ok == (alive && env.postOk(old(clock)))
      ensures posts == if alive then old(posts) + [id] else old(posts)
      ensures alive ==> Due(id, answered, escalated, posts)
    {
      hide ValidRun, Ledger, Attempts, Torn, Seen, ValidTurn, Accounts, Due;
      ok := false;
      if env.crash(clock) {
        alive := false;
      } else {
        ghost var u := t.(posted := true);
        Posted(Ledger(start, rest), t);
        RunAppend(start, rest, t);
        RunAppend(start, rest, u);
        PostIsDue(id, answered, escalated, posts);
        posts := posts + [id];
        turns := rest + [u];
        ok := env.postOk(clock);
      }
      clock := clock + 1;
    }

    /** ci_escalate_row */
    method EscalateRow(id: string)
      requires Valid() && alive && Due(id, answered, escalated, posts)
      modifies this`clock, this`alive, this`ioFail, this`escalated
      ensures Valid() && clock == old(clock) + 1 && alive == !env.crash(old(clock))
      ensures escalated == if alive && env.appendOk(old(clock)) then old(escalated) + [id] else old(escalated)
      ensures ioFail == (old(ioFail) || (alive && !env.appendOk(old(clock))))
    {
      hide ValidRun, Ledger, Attempts, Accounts, Due;
      if env.crash(clock) {
        alive := false;
      } else if env.appendOk(clock) {
        Account(id, answered, escalated, posts);
        escalated := escalated + [id];
      } else {
        ioFail := true;
      }
      clock := clock + 1;
    }

    /** What becomes of a post taken up: answered exactly if Answers, otherwise
        escalated to the lead; the pass fails if the escalation is not recorded. A
        process that dies leaves neither behind. */
    twostate predicate Settled(d: Dealt)
      reads this
    {
      && posts == old(posts) + PostedBy(env, d)
      && answered == old(answered) + AnsweredBy(env, d)
      && escalated == old(escalated) + EscalatedBy(env, d)
      && ioFail == (old(ioFail) || Fails(env, d))
      && alive == Survives(env, d)
    }

    /** ci_ack: the received note, then the escalate row whether or not it went out. */
    method Ack(id: string, ghost rest: seq<Turn>, ghost t: Turn)
      requires Recorded(id, rest, t)
      modifies this`clock, this`alive, this`posts, this`turns, this`ioFail, this`escalated
      ensures Valid() && clock == old(clock) + (if env.crash(old(clock)) then 1 else 2)
      ensures alive == (!env.crash(old(clock)) && !env.crash(old(clock) + 1))
      ensures posts == if env.crash(old(clock)) then old(posts) else old(posts) + [id]
      ensures escalated == if alive && env.appendOk(old(clock) + 1) then old(escalated) + [id] else old(escalated)
      ensures ioFail == (old(ioFail) || (alive && !env.appendOk(old(clock) + 1)))
    {
      hide Valid;
      var _ := PublicPost(id, rest, t);
      if alive { EscalateRow(id); }
    }

    /** The need check, the work and ci_publish: the answer, or the ack. */
    method Respond(post: Post, ghost rest: seq<Turn>, ghost t: Turn)
      requires Recorded(post.id, rest, t)
      modifies this`clock, this`alive, this`posts, this`turns, this`ioFail, this`escalated, this`answered
      ensures Valid() && clock > old(clock)
      ensures Settled(Dealt(post, old(clock)))
      ensures Sound(env, old(clock), clock) ==> alive && ioFail == old(ioFail)
    {
      hide Valid, Due;
      if post.need || env.work(clock) != Answer {
        Ack(post.id, rest, t);
      } else {
        var ok := PublicPost(post.id, rest, t);
        if alive {
          if ok {
            Answered(post.id);
          } else {
            EscalateRow(post.id);
          }
        }
      }
    }

    method Answered(id: string)
      requires Valid() && Due(id, answered, escalated, posts)
      modifies this`answered
      ensures Valid() && answered == old(answered) + [id]
    {
      hide ValidRun, Ledger, Attempts, Accounts, Due;
      Account(id, answered, escalated, posts);
      answered := answered + [id];
    }

    /** ci_handle: true when the post used one of the pass's slots. A post already
        seen changes nothing. Where appends are whole or nothing, an unseen one is
        recorded in full or not at all, and is recorded if the pass goes on. */
    method Handle(post: Post) returns (slot: bool)
      requires Valid() && alive && !ioFail
      modifies this
      ensures Valid() && clock > old(clock)
      ensures slot <==> ValidId(post.id) && !Seen(old(ledger), post.id) && env.readable(old(clock)) && !post.ours
                        && Recordable(env, post.id, old(clock) + 1)
      ensures slot ==> Settled(Dealt(post, old(clock) + 2))
      ensures !slot ==> posts == old(posts) && answered == old(answered) && escalated == old(escalated)
      ensures Seen(old(ledger), post.id) ==> ledger == old(ledger) && !slot
      ensures Whole(env, old(clock), clock) ==> ledger == old(ledger) || ledger == old(ledger) + Row(post.id)
      ensures ValidId(post.id) && !Seen(old(ledger), post.id) && alive && !ioFail ==>
                ledger == old(ledger) + Row(post.id)
      ensures Sound(env, old(clock), clock) ==> alive && !ioFail
      ensures Sound(env, old(clock), clock) && ValidId(post.id) ==> slot == (!Seen(old(ledger), post.id) && !post.ours)
    {
      hide ValidRun, Ledger, Attempts, Seen, Torn, ValidId, Sound, Whole, Accounts, Answers, Survives, Fails, PostedBy,
        AnsweredBy, EscalatedBy;
      slot := false;
      if !ValidId(post.id) {
        clock := clock + 1;
        return;
      }
      ghost var from := clock;
      var seen := CheckSeen(post.id);
      SoundReads(env, from, from, clock);
      ghost var mid := clock;
      if seen { return; }
      ghost var rest := turns;
      var ok, t := MarkSeen(post.id);
      WholeRow(post.id, t.written);
      ghost var late := clock;
      if ok && !post.ours {
        slot := true;
        Respond(post, rest, t);
      }
      Meanwhile(env, from, mid, late, clock);
      Meanwhile(env, from, late, clock, clock);
      Meanwhile(env, from, from, mid, clock);
    }

    /** The posts of one page, up to the limit, and whether one is unseen. */
    method TakePage(page: seq<Post>, list: seq<Post>) returns (longer: seq<Post>, unseen: bool)
      requires Valid() && alive && |list| < POST_LIMIT
      modifies this`clock, this`ioFail
      ensures Valid() && clock >= old(clock) && longer == Capped(list + page)
      ensures ioFail || !old(ioFail)
      ensures Sound(env, old(clock), clock) ==> ioFail == old(ioFail)
      ensures !ioFail && !unseen ==> forall j :: |list| <= j < |longer| ==> Seen(ledger, longer[j].id)
      ensures (forall j :: 0 <= j < |page| ==> Seen(ledger, page[j].id)) ==> !unseen
      ensures page != [] ==> clock > old(clock)
      ensures page != [] && !Seen(ledger, page[0].id) && env.readable(old(clock)) ==>
                unseen && clock == old(clock) + 1 && ioFail == old(ioFail)
    {
      hide Valid, Seen, Sound;
      longer, unseen := list, false;
      for i := 0 to |page|
        invariant longer == Capped(list + page[..i])
        invariant Valid() && alive && clock >= old(clock) && (ioFail || !old(ioFail))
        invariant Sound(env, old(clock), clock) ==> ioFail == old(ioFail)
        invariant !ioFail && !unseen ==> forall j :: |list| <= j < |longer| ==> Seen(ledger, longer[j].id)
        invariant (forall j :: 0 <= j < |page| ==> Seen(ledger, page[j].id)) ==> !unseen
        invariant i > 0 ==> clock > old(clock)
        invariant i == 0 ==> clock == old(clock) && !unseen && ioFail == old(ioFail)
        invariant i > 0 && !Seen(ledger, page[0].id) && env.readable(old(clock)) ==>
          unseen && clock == old(clock) + 1 && ioFail == old(ioFail)
      {
        if |longer| == POST_LIMIT { break; }
        if !unseen {
          ghost var now := clock;
          var seen := CheckSeen(page[i].id);
          Meanwhile(env, old(clock), old(clock), now, clock);
          Meanwhile(env, old(clock), now, clock, clock);
          SoundReads(env, now, now, clock);
          unseen := !seen;
        }
        longer := longer + [page[i]];
        assert list + page[..i + 1] == list + page[..i] + [page[i]];
      }
      assert page[..|page|] == page;
    }

    /** ci_fetch: posts newest first, page by page, until a page holds nothing
        unseen. It never reads past the first page that shows nothing unseen; while
        pages load it reads all within reach or the pass has failed. From a burst of
        u unseen posts within the limits it reads all of the burst, or the pages
        before the first that does not load, page k. */
    method Fetch(pages: Pages, ghost u: nat) returns (list: seq<Post>, ghost k: nat)
      requires Valid() && alive
      modifies this`clock, this`ioFail
      ensures Valid() && clock >= old(clock) && list <= Flat(pages) && (ioFail || !old(ioFail))
      ensures Readable(pages, Marks(Flat(pages), ledger), |list|)
      ensures Sound(env, old(clock), clock) ==> ioFail == old(ioFail)
      ensures Loads(env, old(clock), clock) && !ioFail ==> Reach(pages, Marks(Flat(pages), ledger)) <= |list|
      ensures Filled(pages) && pages != [] ==> (list == [] <==> !env.pageOk(old(clock)))
      ensures Sound(env, old(clock), clock) && Ready(pages, ledger, u) && u <= Cap(pages) ==>
                Fetched(pages, env, old(clock), u, |list|, k)
    {
      hide Valid, Seen, Flat, Sound, Loads, Ready, Cap, FirstDone, Reach, Readable, Marks, NotPast, Covers, Reading,
        Fetched, PageSeen, At, Capped;
      list, k := [], 0;
      var more := true;
      ghost var from, m := clock, Marks(Flat(pages), ledger);
      var n := 0;
      MarksLength(Flat(pages), ledger);
      FlatStart(pages);
      ListIs(pages, 0);
      ReadingStart(pages, env, from, u);
      NotPastStart(pages, m);
      while n < PAGES && |list| < POST_LIMIT && more
        invariant Valid() && alive && n <= PAGES && n <= |pages| && clock >= from && ledger == old(ledger)
        invariant list == Capped(Flat(pages[..n])) && (ioFail || !old(ioFail))
        invariant Sound(env, from, clock) ==> ioFail == old(ioFail)
        invariant NotPast(pages, m, n, more)
        invariant Loads(env, from, clock) && !ioFail && !more ==> Covers(pages, m, n)
        invariant n == 0 && more ==> clock == from
        invariant n == 0 && !more && Filled(pages) && pages != [] ==> !env.pageOk(from)
        invariant n > 0 ==> env.pageOk(from) && pages[0] != []
        invariant Sound(env, from, clock) && Ready(pages, ledger, u) ==> Reading(pages, env, from, u, n, clock, more)
        decreases PAGES - n, more
      {
        ghost var now := clock;
        var loaded := n < |pages| && env.pageOk(clock) && pages[n] != [];
        Tick();
        LoadsAt(env, from, now, clock);
        Meanwhile(env, from, from, now, clock);
        if !loaded {
          more := false;
          NotPastEnds(pages, m, n);
          EmptyCovers(pages, m, n);
          if Sound(env, from, now) && Ready(pages, ledger, u) {
            ReadingMiss(pages, env, from, ledger, u, n, now, clock);
          }
        } else {
          ghost var mid := clock;
          var unseen;
          ListIs(pages, n);
          PageStep(pages, m, ledger, n);
          list, unseen := TakePage(pages[n], list);
          Meanwhile(env, from, from, now, clock);
          Meanwhile(env, from, mid, clock, clock);
          if !ioFail && !unseen { PageTaken(pages, ledger, n, list); }
          if Sound(env, from, clock) && Ready(pages, ledger, u) {
            SoundReads(env, from, mid, clock);
            ReadingPage(pages, env, from, ledger, u, n, now, clock, unseen);
          }
          n := n + 1;
          if !unseen || n == |pages| { more := false; }
          LastCovers(pages, m, n);
        }
      }
      k := n;
      ListIs(pages, n);
      NotPastReadable(pages, m, n, more);
      CoversLimit(pages, m, n);
      if Loads(env, from, clock) && !ioFail { CoversReach(pages, m, n); }
      if n > 0 { AtMonotone(pages, 1, n); FlatStep(pages, 0); }
      if Sound(env, from, clock) && Ready(pages, ledger, u) && u <= Cap(pages) {
        ReadingEnd(pages, env, from, ledger, u, n, clock, more);
      }
    }

    /** ci_walk: oldest first, at most four posts that use a slot. Where appends are
        whole or nothing, whatever else fails and wherever the process dies, the
        posts recorded are the unseen ones of the list from some j on; when nothing
        fails, j is where the slots or the posts run out. Those dealt with are
        answered exactly if Answers and escalated otherwise; when nothing fails they
        are the unseen posts of others from j on, oldest first. */
    method Walk(list: seq<Post>, ghost board: seq<Post>) returns (ghost j: nat, ghost ds: seq<Dealt>)
      requires Valid() && alive && !ioFail && list <= board
      modifies this
      ensures Valid() && clock >= old(clock) && j <= |list| && |ds| <= PER_PASS
      ensures Tally(env, old(Log()), Log(), ds, alive && !ioFail)
      ensures Sound(env, old(clock), clock) ==> alive && !ioFail
      ensures Sound(env, old(clock), clock) && Orderly(board) && Open(old(ledger)) == 0 ==>
                Takes(board, Marks(board, old(ledger)), j, |list|, ds)
      ensures Whole(env, old(clock), clock) && Orderly(board) && Open(old(ledger)) == 0 ==>
                Marks(board, ledger) == Taken(Marks(board, old(ledger)), j, |list|) && Open(ledger) == 0
      ensures Sound(env, old(clock), clock) && Orderly(board) && Open(old(ledger)) == 0 ==>
                Stops(board, Marks(board, old(ledger)), j, |list|)
      ensures (forall i :: 0 <= i < |list| ==> Seen(old(ledger), list[i].id)) ==>
                ledger == old(ledger) && posts == old(posts)
    {
      hide Valid, Seen, Sound, Whole, Orderly, Open, Marks, Taken, Takes, Tally, Stops, ValidId, Row, Recordable,
        Walking, Survives, Fails, PostedBy, AnsweredBy, EscalatedBy;
      var i, handled := |list|, 0;
      ghost var w := Start(env, board, |list|, clock, ledger, Log());
      j, ds := i, [];
      WalkStarts(w, clock);
      var fits := env.threadFits(clock);
      Tick();
      WalkEntered(w, clock, fits);
      if !fits {
        TallyNone(env, Log(), true);
        WalkEnds(w, i, j, handled, ds, clock, ledger, Log(), false);
        return;
      }
      while i > 0 && handled < PER_PASS && !ioFail && alive
        invariant 0 <= i <= |list| && Valid() && clock >= old(clock)
        invariant Walking(w, i, j, handled, ds, clock, ledger, Log(), alive && !ioFail)
        decreases i
      {
        i := i - 1;
        ghost var s, now, l := ledger, clock, Log();
        var slot := Handle(list[i]);
        WalkTurn(w, i, j, handled, ds, now, s, l, clock, ledger, Log(), slot, alive && !ioFail);
        ds := if slot && alive && !ioFail then ds + [Dealt(list[i], now + 2)] else ds;
        handled := if slot then handled + 1 else handled;
        j := if ledger != s || (alive && !ioFail) then i else j;
      }
      WalkEnds(w, i, j, handled, ds, clock, ledger, Log(), alive && !ioFail);
    }

    /** ci_pass. Where appends are whole or nothing, posts out of reach are left
        alone whatever else fails, for every board and ledger; with nothing within
        reach nothing changes at all. While also pages load,
        the posts recorded are the oldest unseen ones within reach; a pass in which
        nothing fails takes four of them or leaves none. For a burst of u unseen
        posts, when nothing fails but the load of pages: the seen posts stay the older
        ones exactly if Keeps, and some unseen post is out of reach afterwards exactly
        if Skips. At most four posts are dealt with; each is answered exactly if Answers
        and escalated otherwise. */
    method Pass(pages: Pages, ghost u: nat) returns (ghost v: nat, ghost ds: seq<Dealt>)
      requires Valid()
      modifies this
      ensures Valid() && clock >= old(clock) && |ds| <= PER_PASS
      ensures Tally(env, old(Log()), Log(), ds, alive && !ioFail)
      ensures Reach(pages, Marks(Flat(pages), old(ledger))) == 0 ==> ledger == old(ledger) && posts == old(posts)
      ensures Whole(env, old(clock), clock) && Tidy(pages, old(ledger)) ==>
                Tidy(pages, ledger) && Confined(pages, old(ledger), ledger)
      ensures Steady(env, old(clock), clock) && Tidy(pages, old(ledger)) ==> Advances(pages, old(ledger), ledger, 0)
      ensures Quiet(env, old(clock), clock) && Tidy(pages, old(ledger)) ==> Advances(pages, old(ledger), ledger, 1)
      ensures Steady(env, old(clock), clock) && Ready(pages, old(ledger), u) && u <= Cap(pages) ==>
                Ready(pages, ledger, v) && v <= u
      ensures Quiet(env, old(clock), clock) && Ready(pages, old(ledger), u) && u <= Cap(pages) ==>
                v == 0 || u - v >= PER_PASS
      ensures Sound(env, old(clock), clock) && Ready(pages, old(ledger), u) ==>
                && (InOrder(pages, ledger) <==> Keeps(pages, env, old(clock), u))
                && (Hidden(pages, Marks(Flat(pages), ledger)) <==> Skips(pages, env, old(clock), u))
      ensures Sound(env, old(clock), clock) && Ready(pages, old(ledger), u) && u <= Cap(pages) ==>
                forall l :: 1 <= l < |pages| && MissesAt(pages, env, old(clock), u, l) ==> ShortOf(pages, ledger, u, l)
    {
      hide Valid, Flat, Seen, Sound, Whole, Loads, Ready, Confined, Advances, Cap, Reach, Readable, Marks, Taken, Stops,
        Hidden, InOrder, Keeps, Skips, MissesAt, Fetched, Orderly, Open, ShortOf, Takes, Tally;
      ds := [];
      TallyNone(env, Log(), true);
      TallyNone(env, Log(), false);
      ghost var from, s, board := clock, ledger, Flat(pages);
      Restart();
      var list, k := Fetch(pages, u);
      ghost var mid, n, j := clock, |list|, |list|;
      ghost var m := Marks(board, s);
      TakenNone(m, n);
      StopsNone(board, m);
      NearSeen(pages, s, list);
      var walked := list != [] && !ioFail;
      if walked {
        j, ds := Walk(list, board);
      }
      Meanwhile(env, from, from, mid, clock);
      Meanwhile(env, from, mid, clock, clock);
      SoundIsWhole(env, from, clock);
      SoundIsWhole(env, mid, clock);
      v := if walked then Min(u, j) else u;
      if Ready(pages, s, u) { ReadyTidy(pages, s, u); }
      if Whole(env, from, clock) && Tidy(pages, s) {
        assert Took(pages, s, ledger, n, j);
        PassConfined(pages, s, ledger, n, j);
        ConfinedSame(pages, s);
        if Loads(env, from, clock) {
          PassLoaded(pages, s, ledger, u, n, j, walked, Sound(env, from, clock));
        }
        if Sound(env, from, clock) && Ready(pages, s, u) {
          PassExact(pages, env, from, s, ledger, u, n, j, k);
        }
      }
    }

    /** Passes over one board. Order and the posts out of reach are kept as by one
        pass; each pass in which nothing fails takes four unseen posts within reach or
        the rest of them. When nothing fails for enough passes, exactly the posts that
        were seen or within reach are seen. */
    method Drain(pages: Pages, passes: nat, ghost u: nat) returns (ghost v: nat, ghost quiet: nat)
      requires Valid()
      modifies this
      ensures Valid() && quiet <= passes && clock >= old(clock)
      ensures Quiet(env, old(clock), clock) ==> quiet == passes
      ensures Whole(env, old(clock), clock) && Tidy(pages, old(ledger)) ==>
                Tidy(pages, ledger) && Confined(pages, old(ledger), ledger)
      ensures Steady(env, old(clock), clock) && Tidy(pages, old(ledger)) ==>
                Advances(pages, old(ledger), ledger, quiet)
      ensures Steady(env, old(clock), clock) && Ready(pages, old(ledger), u) && u <= Cap(pages) ==>
                Ready(pages, ledger, v) && v <= u && (v == 0 || v + PER_PASS * quiet <= u)
      ensures Quiet(env, old(clock), clock) && Tidy(pages, old(ledger)) ==>
                Waiting(pages, old(ledger)) <= PER_PASS * passes ==> TakesAll(pages, old(ledger), ledger)
    {
      hide Valid, Ready, Sound, Whole, Loads, Tidy, Confined, Advances, TakesAll, Waiting, Cap;
      v, quiet := u, 0;
      ghost var from, s := clock, ledger;
      ConfinedSame(pages, s);
      AdvancesSame(pages, s);
      for k := 0 to passes
        invariant Valid() && quiet <= k && clock >= from
        invariant Quiet(env, from, clock) ==> quiet == k
        invariant Whole(env, from, clock) && Tidy(pages, s) ==> Tidy(pages, ledger) && Confined(pages, s, ledger)
        invariant Steady(env, from, clock) && Tidy(pages, s) ==> Advances(pages, s, ledger, quiet)
        invariant Steady(env, from, clock) && Ready(pages, s, u) && u <= Cap(pages) ==>
          Ready(pages, ledger, v) && v <= u && (v == 0 || v + PER_PASS * quiet <= u)
      {
        ghost var now, w, before := clock, v, ledger;
        ghost var ds;
        v, ds := Pass(pages, w);
        Meanwhile(env, from, from, now, clock);
        Meanwhile(env, from, now, clock, clock);
        SoundIsWhole(env, now, clock);
        SoundIsWhole(env, from, clock);
        ghost var more := if Quiet(env, now, clock) then 1 else 0;
        if Whole(env, from, clock) && Tidy(pages, s) {
          ConfinedTwice(pages, s, before, ledger);
          if Loads(env, from, clock) { AdvancesTwice(pages, s, before, ledger, quiet, more); }
        }
        quiet := quiet + more;
      }
      SoundIsWhole(env, from, clock);
      if Quiet(env, from, clock) && Tidy(pages, s) && Waiting(pages, s) <= PER_PASS * passes {
        DrainAll(pages, s, ledger, passes);
      }
    }

    /** A burst of u unseen posts, met by one pass in which nothing but the load of
        pages fails, and then by enough passes in which nothing fails: all of it is
        seen in the end exactly if the first pass did not skip. If it missed page k
        and took all of page k - 1, exactly the posts from page k on are left behind. */
    method LeftBehind(pages: Pages, passes: nat, ghost u: nat) returns (ghost mid: nat)
      requires Valid() && u <= PER_PASS * passes
      modifies this
      ensures Valid() && old(clock) <= mid <= clock
      ensures Sound(env, old(clock), mid) && Quiet(env, mid, clock) && Ready(pages, old(ledger), u) ==>
                && (AllSeen(pages, ledger) <==> !Skips(pages, env, old(clock), u))
                && (u <= Cap(pages) ==>
                      forall k :: Cuts(pages, env, old(clock), u, k) ==> LeftFrom(pages, ledger, u, k))
    {
      hide Valid, Ready, Sound, Whole, Loads, Tidy, Confined, Advances, TakesAll, Waiting, Cap, Skips, MissesAt,
        ShortOf,
        LeftFrom, AllSeen, Hidden, Cuts;
      ghost var from, s := clock, ledger;
      var _, _ := Pass(pages, u);
      mid := clock;
      ghost var t := ledger;
      var _, _ := Drain(pages, passes, 0);
      SoundIsWhole(env, from, mid);
      if Sound(env, from, mid) && Quiet(env, mid, clock) && Ready(pages, s, u) {
        ReadyTidy(pages, s, u);
        WaitingBurst(pages, s, t, u);
        TakesBoard(pages, t, ledger);
        forall k | Cuts(pages, env, from, u, k) && u <= Cap(pages) ensures LeftFrom(pages, ledger, u, k) {
          CutsElim(pages, env, from, u, k);
          LeftAre(pages, t, ledger, u, k);
        }
      }
    }

    /** A new process over the same files. */
    method Restart()
      requires Valid()
      modifies this`ioFail, this`alive
      ensures Valid() && alive && !ioFail
    {
      ioFail, alive := false, true;
    }

    /** Any number of passes over any boards, whatever fails and wherever the
        process dies: at most one public post attempt per id, plus one for each
        append that left part of a row behind, and no more answers and escalations of
        an id than attempts. */
    method Passes(boards: seq<Pages>)
      requires Valid()
      modifies this
      ensures Valid()
      ensures forall id :: multiset(posts)[id] <= 1 + Torn(turns) + Dirty(start)
      ensures forall id :: multiset(answered)[id] + multiset(escalated)[id] <= multiset(posts)[id]
    {
      hide ValidRun, Ledger, Attempts, Torn, Dirty;
      for k := 0 to |boards|
        invariant Valid()
      {
        var _, _ := Pass(boards[k], 0);
      }
      forall id ensures multiset(posts)[id] <= 1 + Torn(turns) + Dirty(start) {
        AtMostOnce(start, turns, id);
      }
    }

    method Tick()
      requires Valid()
      modifies this`clock
      ensures Valid() && clock == old(clock) + 1
    {
      clock := clock + 1;
    }
  }

  lemma WholeRow(id: string, n: nat)
    ensures n == |Row(id)| ==> Row(id)[..n] == Row(id)
    ensures n == 0 ==> Row(id)[..n] == ""
  {
  }

  lemma Posted(s: string, t: Turn)
    requires ValidTurn(s, t) && t.written == |Row(t.id)|
    ensures ValidTurn(s, t.(posted := true)) && After(s, t.(posted := true)) == After(s, t)
  {
  }
}
