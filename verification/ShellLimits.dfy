/** What the tokenizer's tables leave out of a long list of commands. */
module ShellLimits {
  import opened Wrappers
  import opened ShellTok
  import opened ShellBounds
  import opened ShellQuoting
  import opened ShellCommands

  function Min(a: nat, b: nat): nat { if a < b then a else b }

  /** A command and the separator that ends it, whatever follows. */
  datatype Cmd = Cmd(words: seq<string>, op: string)

  predicate Listable(c: Cmd) {
    c.words != [] && c.op in [";", "(", ")", "`", "&&", "||", "|&", "$(", ">(", "<(", "\n"]
  }

  function Listed(cmds: seq<Cmd>, gap: string): string
    requires forall i :: 0 <= i < |cmds| ==> Listable(cmds[i])
  {
    if cmds == [] then ""
    else
      assert Listable(cmds[0]);
      QuoteWords(cmds[0].words, gap) + (cmds[0].op + Listed(cmds[1..], gap))
  }

  function Words(cmds: seq<Cmd>): seq<string> {
    if cmds == [] then [] else Words(cmds[..|cmds| - 1]) + cmds[|cmds| - 1].words
  }

  /** The words that are kept. */
  function Kept(cmds: seq<Cmd>): nat { Min(|Words(cmds)|, MAX_WORDS) }

  /** The segments of the commands: one each, while there is room and words are kept. */
  function SegsOf(cmds: seq<Cmd>): seq<Seg> {
    if cmds == [] then []
    else
      var rest := cmds[..|cmds| - 1];
      var segs := SegsOf(rest);
      if Kept(cmds) > Kept(rest)
        && |segs| < MAX_SEGS then segs + [Seg(Kept(rest), Kept(cmds) - Kept(rest), None)] else segs
  }

  /* ---- reading ------------------------------------------------------------------- */

  /** Nothing under construction. */
  predicate Free(t: Tok) {
    t.word.None? && t.pend == PNone && |t.out.words| <= MAX_WORDS
  }

  /** The words of a command are added as far as they are kept, and nothing else. */
  lemma {:induction false} WordsAdded(t: Tok, ws: seq<string>, gap: string)
    requires Free(t) && ws != []
    ensures var (e, all) := (EndWord(WordsRead(t, ws, gap)), t.out.words + ws);
            && Free(e) && e == t.(i := e.i, apos := e.apos, out := e.out)
            && e.out == t.out.(words := all[..Min(|all|, MAX_WORDS)])
    decreases |ws|
  {
    hide QuoteWord;
    var a := AddQuoted(t, ws[0]).(i := t.i + |QuoteWord(ws[0])|);
    OneAdded(t, ws[0], t.i + |QuoteWord(ws[0])|);
    if |ws| == 1 {
      assert ws == [ws[0]];
    } else {
      var b := EndWord(a).(i := a.i + |gap|);
      WordsAdded(b, ws[1..], gap);
      MoreKept(t.out.words, ws);
    }
  }

  lemma OneAdded(t: Tok, w: string, i: nat)
    requires Free(t)
    ensures var (e, all) := (EndWord(AddQuoted(t, w).(i := i)), t.out.words + [w]);
            && Free(e) && e == t.(i := e.i, apos := e.apos, out := e.out) && e.i == i
            && e.out == t.out.(words := all[..Min(|all|, MAX_WORDS)])
  {
    assert "" + w == w;
    var all := t.out.words + [w];
    assert |t.out.words| == MAX_WORDS ==> all[..MAX_WORDS] == t.out.words;
    assert |t.out.words| < MAX_WORDS ==> all[..|all|] == all;
  }

  lemma MoreKept(done: seq<string>, ws: seq<string>)
    requires |done| <= MAX_WORDS && |ws| > 1
    ensures var (one, all) := (done + [ws[0]], done + ws);
            var more := one[..Min(|one|, MAX_WORDS)] + ws[1..];
            more[..Min(|more|, MAX_WORDS)] == all[..Min(|all|, MAX_WORDS)]
  {
  }

  /** The state after these commands. */
  predicate After(t: Tok, cmds: seq<Cmd>) {
    && t.word.None? && t.pend == PNone && t.hd == [] && t.cw0 == Kept(cmds) && t.cr0 == 0
    && t.out == Tokens(Words(cmds)[..Kept(cmds)], [], SegsOf(cmds), [])
  }

  lemma CommandClosed(t: Tok, done: seq<Cmd>, c: Cmd, e: Tok)
    requires After(t, done) && c.words != [] && Free(e) && e == t.(i := e.i, apos := e.apos, out := e.out)
    requires var all := t.out.words + c.words; e.out == t.out.(words := all[..Min(|all|, MAX_WORDS)])
    ensures After(CloseSeg(e), done + [c])
  {
    var cmds := done + [c];
    assert cmds[..|done|] == done;
    KeptMore(Words(done), c.words);
  }

  lemma KeptMore(a: seq<string>, b: seq<string>)
    ensures var (k, all) := (a[..Min(|a|, MAX_WORDS)], a + b);
            && (k + b)[..Min(|k + b|, MAX_WORDS)] == all[..Min(|all|, MAX_WORDS)]
            && |(k + b)[..Min(|k + b|, MAX_WORDS)]| == Min(|all|, MAX_WORDS)
  {
  }

  lemma {:induction false} ReadListed(done: seq<Cmd>, cmds: seq<Cmd>, gap: string, t: Tok)
    requires (forall i :: 0 <= i < |cmds| ==> Listable(cmds[i])) && Blank(gap) && gap != "" && After(t, done)
    ensures var all := done + cmds;
            Run(Listed(cmds, gap), t).out == Tokens(Words(all)[..Kept(all)], [], SegsOf(all), [])
    decreases |cmds|
  {
    hide Run, Step, QuoteWords, WordsRead, CloseSeg, EndWord, Words, SegsOf, Blank, Separator;
    if cmds == [] {
      RunEmpty(t);
      AfterEnds(t, done);
      assert done + cmds == done;
    } else {
      var c, rest := cmds[0], Listed(cmds[1..], gap);
      ReadWords(c.words, gap, c.op + rest, t);
      var a := WordsRead(t, c.words, gap);
      KeptFree(t, done);
      WordsAdded(t, c.words, gap);
      CommandClosed(t, done, c, EndWord(a));
      Unconditional(c, rest);
      StepSeparator(c.op, rest, a);
      SeparatorNotEmpty(c.op, rest);
      var b := EndSeg(a).(i := a.i + |c.op|);
      assert (c.op + rest)[|c.op|..] == rest;
      CloseSegAt(EndWord(a));
      EndWordTwice(a);
      RunStep(c.op + rest, a, b, rest);
      ReadListed(done + [c], cmds[1..], gap, b);
      assert done + [c] + cmds[1..] == done + cmds;
    }
  }

  lemma CloseSegAt(t: Tok)
    ensures CloseSeg(t).i == t.i
  {
  }

  lemma Unconditional(c: Cmd, rest: string)
    requires Listable(c)
    ensures Separator(c.op, rest)
  {
  }

  lemma KeptFree(t: Tok, cmds: seq<Cmd>)
    requires After(t, cmds)
    ensures Free(t)
  {
    hide Words, SegsOf;
  }

  lemma AfterEnds(t: Tok, cmds: seq<Cmd>)
    requires After(t, cmds)
    ensures EndSeg(t).out == t.out
  {
    hide Words, SegsOf;
  }

  /* ---- what is covered -------------------------------------------------------------- */

  /** Within both limits every command has its segment. */
  lemma {:induction false} AllCovered(cmds: seq<Cmd>)
    requires (forall i :: 0 <= i < |cmds| ==> Listable(cmds[i])) && |cmds| <= MAX_SEGS && |Words(cmds)| <= MAX_WORDS
    ensures |SegsOf(cmds)| == |cmds| && Covered(SegsOf(cmds)) == |Words(cmds)|
  {
    hide Listable;
    if cmds != [] {
      var rest := cmds[..|cmds| - 1];
      forall i | 0 <= i < |rest| ensures Listable(rest[i]) { assert rest[i] == cmds[i]; }
      AllCovered(rest);
      ListableWords(cmds[|cmds| - 1]);
    }
  }

  lemma ListableWords(c: Cmd)
    requires Listable(c)
    ensures |c.words| >= 1
  {
  }

  /** The segments never cover more than the words kept, nor more than the first 1024
      commands. */
  lemma {:induction false} CoveredBound(cmds: seq<Cmd>)
    requires forall i :: 0 <= i < |cmds| ==> Listable(cmds[i])
    ensures Covered(SegsOf(cmds)) <= Kept(cmds)
    ensures |cmds| > MAX_SEGS && |Words(cmds)| <= MAX_WORDS ==>
              |SegsOf(cmds)| == MAX_SEGS && Covered(SegsOf(cmds)) < |Words(cmds)|
  {
    hide Listable;
    if cmds != [] {
      var n := |cmds| - 1;
      var rest := cmds[..n];
      forall i | 0 <= i < |rest| ensures Listable(rest[i]) { assert rest[i] == cmds[i]; }
      CoveredBound(rest);
      ListableWords(cmds[n]);
      if n == MAX_SEGS && |Words(cmds)| <= MAX_WORDS { AllCovered(rest); }
    }
  }

  /** For any number of commands of any words: the first 4096 words are kept, the first
      1024 commands with kept words have a segment, and so all words are in segments
      exactly if there are no more than 1024 commands and 4096 words. */
  lemma ManyCommands(cmds: seq<Cmd>, gap: string)
    requires (forall i :: 0 <= i < |cmds| ==> Listable(cmds[i])) && Blank(gap) && gap != ""
    ensures var o := Tokenize(Listed(cmds, gap));
            && o.words == Words(cmds)[..Kept(cmds)] && o.segs == SegsOf(cmds)
            && (Covered(o.segs) == |Words(cmds)| <==> |cmds| <= MAX_SEGS && |Words(cmds)| <= MAX_WORDS)
  {
    hide Run, Listed, Blank, Listable;
    assert [] + cmds == cmds;
    ReadListed([], cmds, gap, START);
    CoveredBound(cmds);
    if |cmds| <= MAX_SEGS && |Words(cmds)| <= MAX_WORDS { AllCovered(cmds); }
  }
}
