/** What every step of the tokenizer keeps: room in the arena, and segments that
    share out the words and own the redirects. */
module ShellBounds {
  import opened Wrappers
  import opened Text
  import opened ShellScan
  import opened ShellTok

  /** The segments take the words one after another, up to n. */
  ghost predicate Partition(segs: seq<Seg>, n: nat) {
    if segs == [] then n == 0
    else
      var last := segs[|segs| - 1];
      last.w0 + last.nw == n && Partition(segs[..|segs| - 1], last.w0)
  }

  /** Where the last segment ends. */
  function Covered(segs: seq<Seg>): nat {
    if segs == [] then 0 else segs[|segs| - 1].w0 + segs[|segs| - 1].nw
  }

  /** Arena room: the characters used, and the end of a word being built, never
      outgrow twice the text read. */
  ghost predicate Roomy(t: Tok) {
    && t.apos + (if t.word.Some? then 1 else 0) <= 2 * t.i
    && |Built(t)| <= t.apos
  }

  /** The closed segments share out the words up to where the last one ends. Until
      the segment table is full that is where the current segment begins, and they
      own the redirects before it. */
  ghost predicate Owned(t: Tok) {
    && t.cw0 <= |t.out.words| && t.cr0 <= |t.out.redirs| && |t.out.segs| <= MAX_SEGS
    && Partition(t.out.segs, Covered(t.out.segs)) && Covered(t.out.segs) <= t.cw0
    && (|t.out.segs| < MAX_SEGS ==> Covered(t.out.segs) == t.cw0)
    && (forall k :: 0 <= k < |t.out.redirs| && |t.out.segs| < MAX_SEGS ==>
      if k < t.cr0 then t.out.redirs[k].seg < |t.out.segs| else t.out.redirs[k].seg == |t.out.segs|)
    && |t.out.words| <= MAX_WORDS && |t.out.redirs| <= MAX_REDIR && |t.out.subs| <= MAX_SUBS && |t.hd| <= MAX_HD
  }

  ghost predicate Good(t: Tok) { Roomy(t) && Owned(t) }

  lemma EndWordGood(t: Tok)
    requires Good(t)
    ensures Owned(EndWord(t)) && EndWord(t).word.None? && EndWord(t).apos <= 2 * t.i && EndWord(t).i == t.i
  {
    hide Partition, Cut;
  }

  lemma CloseSegGood(t: Tok)
    requires Owned(t)
    ensures var e := CloseSeg(t);
            && Owned(e) && e.cw0 == |e.out.words| && e.cr0 == |e.out.redirs|
            && e.word == t.word && e.apos == t.apos && e.i == t.i && e.hd == t.hd
  {
    var e := CloseSeg(t);
    if |e.out.segs| > |t.out.segs| {
      assert e.out.segs[..|t.out.segs|] == t.out.segs;
    }
  }

  lemma EndSegGood(t: Tok)
    requires Good(t)
    ensures var e := EndSeg(t);
            && Owned(e) && e.cw0 == |e.out.words| && e.cr0 == |e.out.redirs|
            && e.word.None? && e.apos <= 2 * t.i && e.i == t.i
  {
    hide Owned, EndWord, CloseSeg;
    EndWordGood(t);
    CloseSegGood(EndWord(t));
  }

  /** Attaching bodies moves no segment. */
  lemma {:induction false} BodiesPartition(r: string, p: nat, hd: seq<Heredoc>, segs: seq<Seg>, n: nat)
    requires Partition(segs, n)
    ensures Partition(Bodies(r, p, hd, segs).1, n) && Covered(Bodies(r, p, hd, segs).1) == Covered(segs) == n
    decreases |hd|
  {
    hide HeredocBody, Partition;
    PartitionEnd(segs, n);
    if hd != [] {
      var b := HeredocBody(r, hd[0].delim);
      AttachPartition(segs, hd[0].seg, Sub(p, b.len), n);
      BodiesPartition(r[b.next..], p + b.next, hd[1..], Attach(segs, hd[0].seg, Sub(p, b.len)), n);
    }
  }

  lemma PartitionEnd(segs: seq<Seg>, n: nat)
    requires Partition(segs, n)
    ensures Covered(segs) == n
  {
  }

  lemma {:induction false} AttachPartition(segs: seq<Seg>, seg: nat, body: Sub, n: nat)
    requires Partition(segs, n)
    ensures Partition(Attach(segs, seg, body), n)
    decreases |segs|
  {
    if segs != [] {
      var k := |segs| - 1;
      AttachPartition(segs[..k], seg, body, segs[k].w0);
      assert Attach(segs, seg, body)[..k] == Attach(segs[..k], seg, body);
    }
  }

  lemma NewlineGood(r: string, t: Tok)
    requires r != "" && Good(t)
    ensures Good(Newline(r, t))
  {
    hide Partition, EndSeg, Bodies;
    EndSegGood(t);
    var e := EndSeg(t);
    BodiesPartition(r[1..], t.i + 1, e.hd, e.out.segs, Covered(e.out.segs));
  }

  lemma StepWsGood(r: string, t: Tok)
    requires r != "" && Good(t)
    ensures StepWs(r, t).Some? ==> Good(StepWs(r, t).value)
  {
    hide Partition, EndWord;
    EndWordGood(t);
  }

  lemma StepQuoteGood(r: string, t: Tok)
    requires r != "" && Good(t)
    ensures StepQuote(r, t).Some? ==> Good(StepQuote(r, t).value)
  {
    hide Partition, Quoted, Span, Shifted;
  }

  lemma OpBeginGood(t: Tok)
    requires Good(t)
    ensures Owned(OpBegin(t)) && OpBegin(t).word.None? && OpBegin(t).apos <= 2 * t.i && OpBegin(t).i == t.i
  {
    hide Partition, EndWord;
    EndWordGood(t);
  }

  lemma StepRedirGood(r: string, t: Tok)
    requires r != "" && Good(t)
    ensures StepRedir(r, t).Some? ==> Good(StepRedir(r, t).value)
  {
    hide Partition, OpBegin, EndSeg;
    OpBeginGood(t);
    EndSegGood(t);
  }

  lemma StepSepGood(r: string, t: Tok)
    requires r != "" && Good(t)
    ensures StepSep(r, t).Some? ==> Good(StepSep(r, t).value)
  {
    hide Partition, EndSeg, Newline;
    EndSegGood(t);
    NewlineGood(r, t);
  }

  lemma StepGood(r: string, t: Tok)
    requires r != "" && Good(t)
    ensures Good(Step(r, t))
  {
    hide Partition, StepWs, StepQuote, StepRedir, StepSep;
    StepWsGood(r, t);
    StepQuoteGood(r, t);
    StepRedirGood(r, t);
    StepSepGood(r, t);
  }

  lemma StartGood()
    ensures Good(START)
  {
  }

  lemma {:induction false} RunGood(r: string, t: Tok)
    requires Good(t)
    ensures var e := Run(r, t);
            && Owned(e) && e.cw0 == |e.out.words| && e.cr0 == |e.out.redirs| && e.apos <= 2 * (t.i + |r|)
    decreases |r|
  {
    hide Good, Owned, EndSeg, Step;
    if r == "" {
      EndSegGood(t);
    } else {
      StepAdvances(r, t);
      StepGood(r, t);
      var e := Step(r, t);
      RunGood(r[e.i - t.i..], e);
    }
  }

  /** For every text: the arena of twice its length is enough; the segments
      partition the words in order up to where the last one ends; and unless the
      segment table filled up that is all the words, and every redirect belongs to
      an existing segment. */
  lemma TokenizeSound(s: string)
    ensures var o := Tokenize(s);
            && Run(s, START).apos <= 2 * |s|
            && Partition(o.segs, Covered(o.segs)) && Covered(o.segs) <= |o.words|
            && (|o.segs| < MAX_SEGS ==> Covered(o.segs) == |o.words|)
            && (|o.segs| < MAX_SEGS ==> forall k :: 0 <= k < |o.redirs| ==> o.redirs[k].seg < |o.segs|)
  {
    hide Run, Partition;
    StartGood();
    RunGood(s, START);
  }

  /* ---- slices of the text --------------------------------------------------------- */

  ghost predicate SubsIn(subs: seq<Sub>, n: nat) {
    forall k :: 0 <= k < |subs| ==> subs[k].off + subs[k].len <= n
  }

  ghost predicate BodiesIn(segs: seq<Seg>, n: nat) {
    forall k :: 0 <= k < |segs| && segs[k].body.Some? ==> segs[k].body.value.off + segs[k].body.value.len <= n
  }

  /** Every recorded slice lies in the text read so far. */
  ghost predicate Slices(t: Tok, n: nat) { SubsIn(t.out.subs, n) && BodiesIn(t.out.segs, n) }

  lemma EndSegSlices(t: Tok, n: nat)
    requires Slices(t, n)
    ensures Slices(EndWord(t), n) && Slices(EndSeg(t), n) && EndSeg(t).i == t.i && EndWord(t).i == t.i
  {
    hide Cut;
  }

  lemma {:induction false} BodiesSlices(r: string, p: nat, hd: seq<Heredoc>, segs: seq<Seg>)
    requires BodiesIn(segs, p)
    ensures var (n, e) := Bodies(r, p, hd, segs); BodiesIn(e, p + n)
    decreases |hd|
  {
    hide HeredocBody;
    if hd != [] {
      var b := HeredocBody(r, hd[0].delim);
      BodiesSlices(r[b.next..], p + b.next, hd[1..], Attach(segs, hd[0].seg, Sub(p, b.len)));
    }
  }

  lemma QuoteSlices(r: string, t: Tok)
    requires r != "" && Slices(t, t.i)
    ensures Slices(DoubleQuote(r, t), DoubleQuote(r, t).i)
  {
    hide Quoted;
    QuotedSubs(r[1..]);
  }

  lemma NewlineSlices(r: string, t: Tok)
    requires r != "" && Slices(t, t.i)
    ensures Slices(Newline(r, t), Newline(r, t).i)
  {
    hide EndSeg, Bodies;
    EndSegSlices(t, t.i);
    BodiesSlices(r[1..], t.i + 1, EndSeg(t).hd, EndSeg(t).out.segs);
  }

  lemma StepSlices(r: string, t: Tok)
    requires r != "" && Slices(t, t.i)
    ensures Slices(Step(r, t), Step(r, t).i)
  {
    hide EndWord, EndSeg, DoubleQuote, Newline, Span;
    EndSegSlices(t, t.i);
    QuoteSlices(r, t);
    NewlineSlices(r, t);
  }

  lemma {:induction false} RunSlices(r: string, t: Tok)
    requires Slices(t, t.i)
    ensures Slices(Run(r, t), t.i + |r|)
    decreases |r|
  {
    hide Slices, EndSeg, Step;
    if r == "" {
      EndSegSlices(t, t.i);
    } else {
      StepAdvances(r, t);
      StepSlices(r, t);
      var e := Step(r, t);
      RunSlices(r[e.i - t.i..], e);
    }
  }

  /** For every text: each recorded substitution and heredoc body is a slice of it. */
  lemma TokenizeSlices(s: string)
    ensures SubsIn(Tokenize(s).subs, |s|) && BodiesIn(Tokenize(s).segs, |s|)
  {
    hide Run;
    RunSlices(s, START);
  }
}
