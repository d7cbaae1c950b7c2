/** Tokenizing a text and then another after a newline. */
module ShellCompose {
  import opened Wrappers
  import opened Text
  import opened ShellScan
  import opened ShellTok
  import opened ShellBounds

  /* ---- tokens side by side ------------------------------------------------------ */

  function MoveRedirs(redirs: seq<Redir>, n: nat): (r: seq<Redir>)
    ensures |r| == |redirs|
    ensures forall k :: 0 <= k < |redirs| ==> r[k] == Redir(redirs[k].seg + n, redirs[k].word)
  {
    seq(|redirs|, k requires 0 <= k < |redirs| => Redir(redirs[k].seg + n, redirs[k].word))
  }

  function MoveSeg(g: Seg, w: nat, k: nat): Seg {
    Seg(g.w0 + w, g.nw, match g.body case None => None case Some(b) => Some(Sub(b.off + k, b.len)))
  }

  function MoveSegs(segs: seq<Seg>, w: nat, k: nat): (r: seq<Seg>)
    ensures |r| == |segs|
    ensures forall j :: 0 <= j < |segs| ==> r[j] == MoveSeg(segs[j], w, k)
  {
    seq(|segs|, j requires 0 <= j < |segs| => MoveSeg(segs[j], w, k))
  }

  function MoveHd(hd: seq<Heredoc>, n: nat): (r: seq<Heredoc>)
    ensures |r| == |hd|
    ensures forall k :: 0 <= k < |hd| ==> r[k] == Heredoc(hd[k].seg + n, hd[k].delim)
  {
    seq(|hd|, k requires 0 <= k < |hd| => Heredoc(hd[k].seg + n, hd[k].delim))
  }

  /** The tokens x, then the tokens o of a text that starts k characters later. */
  function Beside(x: Tokens, o: Tokens, k: nat): Tokens {
    Tokens(x.words + o.words,
           x.redirs + MoveRedirs(o.redirs, |x.segs|),
           x.segs + MoveSegs(o.segs, |x.words|, k),
           x.subs + Shifted(o.subs, k))
  }

  /** Room for both under every cap. */
  predicate Fits(x: Tokens, o: Tokens) {
    && |x.words| + |o.words| <= MAX_WORDS
    && |x.redirs| + |o.redirs| <= MAX_REDIR
    && |x.segs| + |o.segs| <= MAX_SEGS
    && |x.subs| + |o.subs| <= MAX_SUBS
  }

  /** The state t of the second text inside the first: k characters and p arena
      positions later, after tokens x. */
  function Later(t: Tok, x: Tokens, k: nat, p: nat): Tok {
    Tok(t.i + k, t.apos + p, t.word, t.pend, t.cw0 + |x.words|, t.cr0 + |x.redirs|, MoveHd(t.hd, |x.segs|),
        Beside(x, t.out, k))
  }

  /* ---- every operation commutes with being later ----------------------------------- */

  lemma RouteLater(t: Tok, w: string, x: Tokens, k: nat, p: nat)
    requires Fits(x, Route(t, w).out)
    ensures Route(Later(t, x, k, p), w) == Later(Route(t, w), x, k, p)
  {
    hide Cut, MoveSegs, Shifted;
    var l, e := Later(t, x, k, p), Route(t, w);
    var o := t.out;
    if t.pend == PNone && |o.words| < MAX_WORDS {
      assert x.words + (o.words + [w]) == x.words + o.words + [w];
    } else if t.pend == POut && |o.redirs| < MAX_REDIR {
      assert MoveRedirs(e.out.redirs, |x.segs|) == MoveRedirs(o.redirs, |x.segs|) + [Redir(|o.segs| + |x.segs|, w)];
      assert x.redirs + MoveRedirs(e.out.redirs, |x.segs|) == Beside(x, o, k).redirs + [Redir(|o.segs| + |x.segs|, w)];
    } else if t.pend == PHeredoc && |t.hd| < MAX_HD {
      assert MoveHd(e.hd, |x.segs|) == MoveHd(t.hd, |x.segs|) + [Heredoc(|o.segs| + |x.segs|, Cut(w))];
    }
  }

  lemma EndWordLater(t: Tok, x: Tokens, k: nat, p: nat)
    requires Fits(x, EndWord(t).out)
    ensures EndWord(Later(t, x, k, p)) == Later(EndWord(t), x, k, p)
  {
    hide Beside, MoveHd, Fits, Route;
    if t.word.Some? {
      var u := t.(word := None, apos := t.apos + 1);
      RouteLater(u, t.word.value.text, x, k, p);
      assert Later(t, x, k, p).(word := None, apos := t.apos + p + 1) == Later(u, x, k, p);
    }
  }

  lemma CloseSegLater(t: Tok, x: Tokens, k: nat, p: nat)
    requires Fits(x, CloseSeg(t).out)
    ensures CloseSeg(Later(t, x, k, p)) == Later(CloseSeg(t), x, k, p)
  {
    hide MoveRedirs, MoveHd, Shifted;
    var l, e, o := Later(t, x, k, p), CloseSeg(t), t.out;
    if |e.out.segs| > |o.segs| {
      assert MoveSegs(e.out.segs, |x.words|, k)
        == MoveSegs(o.segs, |x.words|, k) + [MoveSeg(e.out.segs[|o.segs|], |x.words|, k)];
      assert x.segs + MoveSegs(e.out.segs, |x.words|, k) == l.out.segs + [MoveSeg(e.out.segs[|o.segs|], |x.words|, k)];
    }
  }

  lemma EndSegLater(t: Tok, x: Tokens, k: nat, p: nat)
    requires Fits(x, EndSeg(t).out)
    ensures EndSeg(Later(t, x, k, p)) == Later(EndSeg(t), x, k, p)
  {
    hide EndWord, Beside, Later;
    EndWordLater(t, x, k, p);
    CloseSegLater(EndWord(t), x, k, p);
  }

  lemma AttachLater(segs: seq<Seg>, seg: nat, body: Sub, x: seq<Seg>, w: nat, k: nat)
    ensures Attach(x + MoveSegs(segs, w, k), seg + |x|, Sub(body.off + k, body.len))
         == x + MoveSegs(Attach(segs, seg, body), w, k)
  {
  }

  lemma {:induction false} BodiesLater(r: string, p: nat, hd: seq<Heredoc>, segs: seq<Seg>, x: seq<Seg>, w: nat, k: nat)
    ensures var (n, e) := Bodies(r, p, hd, segs);
            Bodies(r, p + k, MoveHd(hd, |x|), x + MoveSegs(segs, w, k)) == (n, x + MoveSegs(e, w, k))
    decreases |hd|
  {
    hide HeredocBody, Attach, MoveSegs;
    if hd != [] {
      var b := HeredocBody(r, hd[0].delim);
      AttachLater(segs, hd[0].seg, Sub(p, b.len), x, w, k);
      assert MoveHd(hd, |x|)[1..] == MoveHd(hd[1..], |x|);
      BodiesLater(r[b.next..], p + b.next, hd[1..], Attach(segs, hd[0].seg, Sub(p, b.len)), x, w, k);
    }
  }

  lemma NewlineLater(r: string, t: Tok, x: Tokens, k: nat, p: nat)
    requires r != "" && Fits(x, Newline(r, t).out)
    ensures Newline(r, Later(t, x, k, p)) == Later(Newline(r, t), x, k, p)
  {
    hide EndSeg, Bodies, MoveRedirs, Shifted, MoveSegs;
    var e := EndSeg(t);
    EndSegLater(t, x, k, p);
    BodiesLater(r[1..], t.i + 1, e.hd, e.out.segs, x.segs, |x.words|, k);
    EndSegKeeps(t);
    assert MoveHd([], |x.segs|) == [];
  }

  lemma EndSegKeeps(t: Tok)
    ensures EndSeg(t).i == t.i && EndWord(t).i == t.i
  {
  }

  lemma AddSubsLater(subs: seq<Sub>, more: seq<Sub>, x: seq<Sub>, k: nat)
    requires |x| + |AddSubs(subs, more)| <= MAX_SUBS
    ensures AddSubs(x + Shifted(subs, k), Shifted(more, k)) == x + Shifted(AddSubs(subs, more), k)
  {
  }

  lemma StepWsLater(r: string, t: Tok, x: Tokens, k: nat, p: nat)
    requires r != "" && (StepWs(r, t).Some? ==> Fits(x, StepWs(r, t).value.out))
    ensures StepWs(r, Later(t, x, k, p)) == match StepWs(r, t) case None => None case Some(e) => Some(Later(e, x, k, p))
  {
    hide Beside, EndWord, MoveHd, Span, Fits;
    EndSegKeeps(t);
    if r[0] == ' ' || r[0] == '\t' || r[0] == '\r' { EndWordLater(t, x, k, p); }
  }

  lemma StepQuoteLater(r: string, t: Tok, x: Tokens, k: nat, p: nat)
    requires r != "" && (StepQuote(r, t).Some? ==> Fits(x, StepQuote(r, t).value.out))
    ensures StepQuote(r, Later(t, x, k, p)) == match StepQuote(r, t)
            case None => None
            case Some(e) => Some(Later(e, x, k, p))
  {
    hide MoveRedirs, MoveSegs, MoveHd, Span, Quoted, Shifted, AddSubs;
    if r[0] == '"' {
      var d := Quoted(r[1..]);
      AddSubsLater(t.out.subs, Shifted(d.subs, t.i + 1), x.subs, k);
      assert Shifted(Shifted(d.subs, t.i + 1), k) == Shifted(d.subs, t.i + k + 1);
    }
  }

  lemma StepRedirLater(r: string, t: Tok, x: Tokens, k: nat, p: nat)
    requires r != "" && |Built(t)| <= t.apos && (StepRedir(r, t).Some? ==> Fits(x, StepRedir(r, t).value.out))
    ensures StepRedir(r, Later(t, x, k, p)) == match StepRedir(r, t)
            case None => None
            case Some(e) => Some(Later(e, x, k, p))
  {
    hide Beside, EndWord, MoveHd, Fits, EndSeg, RedirTail;
    EndSegKeeps(t);
    if StepRedir(r, t).Some? {
      if At(r, 1) == Some('(') && r[0] != '&' {
        EndSegLater(t, x, k, p);
      } else if t.word.Some? && !t.word.value.digits {
        EndWordLater(t, x, k, p);
      }
    }
  }

  lemma StepSepLater(r: string, t: Tok, x: Tokens, k: nat, p: nat)
    requires r != "" && (StepSep(r, t).Some? ==> Fits(x, StepSep(r, t).value.out))
    ensures StepSep(r, Later(t, x, k, p)) == match StepSep(r, t)
            case None => None
            case Some(e) => Some(Later(e, x, k, p))
  {
    hide Beside, MoveHd, Fits, EndSeg, Newline;
    EndSegKeeps(t);
    if StepSep(r, t).Some? {
      if r[0] == '\n' {
        NewlineLater(r, t, x, k, p);
      } else {
        EndSegLater(t, x, k, p);
      }
    }
  }

  lemma StepLater(r: string, t: Tok, x: Tokens, k: nat, p: nat)
    requires r != "" && |Built(t)| <= t.apos && Fits(x, Step(r, t).out)
    ensures Step(r, Later(t, x, k, p)) == Later(Step(r, t), x, k, p)
  {
    hide Beside, MoveHd, Fits, StepWs, StepQuote, StepRedir, StepSep;
    if StepWs(r, t).Some? {
      StepWsLater(r, t, x, k, p);
    } else if StepQuote(r, t).Some? {
      StepWsLater(r, t, x, k, p);
      StepQuoteLater(r, t, x, k, p);
    } else if StepRedir(r, t).Some? {
      StepWsLater(r, t, x, k, p);
      StepQuoteLater(r, t, x, k, p);
      StepRedirLater(r, t, x, k, p);
    } else {
      StepWsLater(r, t, x, k, p);
      StepQuoteLater(r, t, x, k, p);
      StepRedirLater(r, t, x, k, p);
      StepSepLater(r, t, x, k, p);
    }
  }

  /* ---- tokens only accumulate ------------------------------------------------------------ */

  predicate Grown(a: Tokens, b: Tokens) {
    |a.words| <= |b.words| && |a.redirs| <= |b.redirs| && |a.segs| <= |b.segs| && |a.subs| <= |b.subs|
  }

  lemma EndSegGrows(t: Tok)
    ensures Grown(t.out, EndWord(t).out) && Grown(t.out, EndSeg(t).out)
  {
  }

  lemma StepGrows(r: string, t: Tok)
    requires r != "" && |t.out.subs| <= MAX_SUBS
    ensures Grown(t.out, Step(r, t).out)
  {
    hide EndWord, EndSeg, Bodies, Quoted, Span, Shifted;
    EndSegGrows(t);
  }

  lemma {:induction false} RunGrows(r: string, t: Tok)
    requires Good(t)
    ensures Grown(t.out, Run(r, t).out)
    decreases |r|
  {
    hide Step, EndSeg, Partition;
    if r == "" {
      EndSegGrows(t);
    } else {
      StepAdvances(r, t);
      StepGood(r, t);
      StepGrows(r, t);
      var e := Step(r, t);
      RunGrows(r[e.i - t.i..], e);
    }
  }

  lemma {:induction false} RunLater(r: string, t: Tok, x: Tokens, k: nat, p: nat)
    requires Good(t) && Fits(x, Run(r, t).out)
    ensures Run(r, Later(t, x, k, p)).out == Beside(x, Run(r, t).out, k)
    decreases |r|
  {
    hide Step, EndSeg, Owned, Beside, MoveHd;
    if r == "" {
      EndSegLater(t, x, k, p);
    } else {
      var e := Step(r, t);
      StepAdvances(r, t);
      StepGood(r, t);
      RunGrows(r[e.i - t.i..], e);
      StepLater(r, t, x, k, p);
      RunLater(r[e.i - t.i..], e, x, k, p);
    }
  }

  /* ---- texts that end cleanly --------------------------------------------------------------- */

  /** Every waiting heredoc finds its delimiter line. */
  predicate BodiesFound(r: string, hd: seq<Heredoc>)
    decreases |hd|
  {
    hd == [] ||
    var b := HeredocBody(r, hd[0].delim);
    b.end != Missing && BodiesFound(r[b.next..], hd[1..])
  }

  /** The step does not run into the end of the text with something open: a
      quote, a backslash or a heredoc body. */
  predicate StepClosed(r: string, t: Tok)
    requires r != ""
  {
    if r[0] == '\'' then Span(r[1..], '\'') + 1 < |r|
    else if r[0] == '"' then Quoted(r[1..]).closed
    else if r[0] == '\\' then |r| > 1
    else r[0] == '\n' ==> BodiesFound(r[1..], EndSeg(t).hd)
  }

  /** The text ends outside quotes, with no backslash dangling and no heredoc
      awaiting its body. */
  predicate Clean(r: string, t: Tok)
    decreases |r|
  {
    if r == "" then EndSeg(t).hd == []
    else
      StepAdvances(r, t);
      var e := Step(r, t);
      StepClosed(r, t) && Clean(r[e.i - t.i..], e)
  }

  /** Nothing under construction. */
  predicate Settled(t: Tok) {
    t.word.None? && t.pend == PNone && t.hd == [] && t.cw0 == |t.out.words| && t.cr0 == |t.out.redirs|
  }

  lemma {:induction false} BodiesFinish(r: string, y: string, p: nat, hd: seq<Heredoc>, segs: seq<Seg>)
    requires BodiesFound(r, hd)
    ensures var (n, e) := Bodies(r, p, hd, segs);
            var b := Bodies(r + "\n" + y, p, hd, segs);
            b == (n, e) || (n == |r| && b == (n + 1, e))
    decreases |hd|
  {
    hide HeredocBody, Attach;
    if hd != [] {
      var b, x := HeredocBody(r, hd[0].delim), "\n" + y;
      assert r + "\n" + y == r + x;
      if b.end == Terminated {
        BodyExtend(r, x, hd[0].delim);
        Tail(r, x, b.next);
        assert r[b.next..] + "\n" + y == r[b.next..] + x;
        BodiesFinish(r[b.next..], y, p + b.next, hd[1..], Attach(segs, hd[0].seg, Sub(p, b.len)));
      } else {
        BodyFinish(r, x, hd[0].delim);
        NoBodyLeft(hd[1..]);
      }
    }
  }

  lemma NoBodyLeft(hd: seq<Heredoc>)
    ensures BodiesFound("", hd) ==> hd == []
  {
  }

  lemma NewlineSettled(r: string, t: Tok)
    requires r != ""
    ensures Settled(Newline(r, t))
  {
    hide Bodies, Route;
    EndWordNone(t);
  }

  lemma EndWordNone(t: Tok)
    ensures EndWord(t).word.None?
  {
  }

  lemma WsFinish(r: string, y: string, t: Tok)
    requires r != ""
    ensures StepWs(r + ("\n" + y), t) == StepWs(r, t)
  {
    hide Span, EndWord;
    var x := "\n" + y;
    NewlineFirst(y);
    if Span(r, '\n') < |r| { SpanExtend(r, x, '\n'); } else { SpanThrough(r, x, '\n'); }
  }

  lemma QuoteFinish(r: string, y: string, t: Tok)
    requires r != "" && StepClosed(r, t)
    ensures StepQuote(r + ("\n" + y), t) == StepQuote(r, t)
  {
    hide Span, Quoted, Shifted, AddQuoted, AddSubs, EndSeg, BodiesFound;
    var x := "\n" + y;
    Tail(r, x, 1);
    if r[0] == '\'' {
      SpanExtend(r[1..], x, '\'');
      Tail(r[1..], x, Span(r[1..], '\''));
      assert (r + x)[1..1 + Span(r[1..], '\'')] == r[1..1 + Span(r[1..], '\'')];
    } else if r[0] == '"' {
      QuotedExtend(r[1..], x);
    }
  }

  lemma RedirFinish(r: string, y: string, t: Tok)
    requires r != ""
    ensures StepRedir(r + ("\n" + y), t) == StepRedir(r, t)
  {
    hide EndSeg, OpBegin;
  }

  lemma SepFinish(r: string, y: string, t: Tok)
    requires r != "" && StepClosed(r, t)
    ensures var (e, l) := (StepSep(r, t), StepSep(r + ("\n" + y), t));
            || l == e
            || (e.Some? && l.Some? && e.value.i == t.i + |r| && Settled(e.value)
                && l.value == e.value.(i := e.value.i + 1))
  {
    hide Span, Quoted, EndSeg, Bodies, BodiesFound;
    var x := "\n" + y;
    if r[0] == '\n' {
      var e := EndSeg(t);
      Tail(r, x, 1);
      assert r[1..] + "\n" + y == r[1..] + x;
      BodiesFinish(r[1..], y, t.i + 1, e.hd, e.out.segs);
      NewlineSettled(r, t);
    }
  }

  /** More text after a newline does not change a closed step, except that a
      heredoc ended by the last line also takes the newline. */
  lemma StepFinish(r: string, y: string, t: Tok)
    requires r != "" && StepClosed(r, t)
    ensures var e := Step(r, t);
            var l := Step(r + "\n" + y, t);
            l == e || (e.i == t.i + |r| && Settled(e) && l == e.(i := e.i + 1))
  {
    hide StepWs, StepQuote, StepRedir, StepSep, StepClosed, Settled, Push;
    assert r + "\n" + y == r + ("\n" + y);
    WsFinish(r, y, t);
    QuoteFinish(r, y, t);
    RedirFinish(r, y, t);
    SepFinish(r, y, t);
  }

  lemma StartLater(t: Tok)
    requires Settled(t)
    ensures t == Later(START, t.out, t.i, t.apos) && EndSeg(t).out == t.out
  {
    assert MoveHd([], |t.out.segs|) == [];
    var o := t.out;
    assert o.words + [] == o.words && o.redirs + MoveRedirs([], |o.segs|) == o.redirs
      && o.segs + MoveSegs([], |o.words|, t.i) == o.segs && o.subs + Shifted([], t.i) == o.subs;
  }

  lemma SettledThen(t: Tok, y: string)
    requires Settled(t) && Fits(t.out, Tokenize(y))
    ensures Run(y, t).out == Beside(t.out, Tokenize(y), t.i)
  {
    hide Run, Beside, Later;
    StartLater(t);
    StartGood();
    RunLater(y, START, t.out, t.i, t.apos);
  }

  lemma {:induction false} RunFinish(r: string, y: string, t: Tok)
    requires Clean(r, t) && Fits(Run(r, t).out, Tokenize(y))
    ensures Run(r + "\n" + y, t).out == Beside(Run(r, t).out, Tokenize(y), t.i + |r| + 1)
    decreases |r|
  {
    hide Step, EndSeg, Beside, StepClosed, Tokenize, Fits;
    var s := r + "\n" + y;
    if r == "" {
      assert s == "\n" + y && s[1..] == y;
      FirstNewline(s, t);
      SettledThen(Step(s, t), y);
    } else {
      var e := Step(r, t);
      StepAdvances(r, t);
      StepAdvances(s, t);
      StepFinish(r, y, t);
      var n := e.i - t.i;
      if Step(s, t) == e {
        assert s[n..] == r[n..] + "\n" + y;
        RunFinish(r[n..], y, e);
      } else {
        assert r[n..] == "" && s[n + 1..] == y;
        StartLater(e);
        SettledThen(Step(s, t), y);
      }
    }
  }

  lemma FirstNewline(s: string, t: Tok)
    requires s != "" && s[0] == '\n' && EndSeg(t).hd == []
    ensures var e := Step(s, t);
            Settled(e) && e.i == t.i + 1 && e.out == EndSeg(t).out
  {
    hide EndSeg;
    NewlineSettled(s, t);
  }

  /** For every text that ends cleanly and every other text: tokenizing both with
      a newline between gives the tokens of the first, then the tokens of the
      second with their indices and offsets moved. */
  lemma NewlineComposes(a: string, b: string)
    requires Clean(a, START) && Fits(Tokenize(a), Tokenize(b))
    ensures Tokenize(a + "\n" + b) == Beside(Tokenize(a), Tokenize(b), |a| + 1)
  {
    hide Run, Beside, Clean;
    RunFinish(a, b, START);
  }
}
