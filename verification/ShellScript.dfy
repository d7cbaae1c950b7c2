/** Command lines: words, redirects and heredocs in any order and spelling, separated
    commands, a comment, the heredoc bodies on the lines after, and what follows. */
module ShellScript {
  import opened Wrappers
  import opened Text
  import opened ShellScan
  import opened ShellTok
  import opened ShellCompose
  import opened ShellQuoting
  import opened ShellCommands
  import opened ShellWords

  /* ---- gaps ---------------------------------------------------------------------------- */

  /** Blanks and line continuations. */
  predicate Gap(g: string) {
    || g == ""
    || (g[0] in " \t\r" && Gap(g[1..]))
    || (|g| >= 2 && g[0] == '\\' && g[1] == '\n' && Gap(g[2..]))
  }

  predicate HasBlank(g: string) {
    if Gap(g) && g != "" then g[0] in " \t\r" || HasBlank(g[2..]) else false
  }

  /** A gap ends the word exactly if there is a blank in it. */
  lemma {:induction false} ReadGap(g: string, rest: string, t: Tok)
    requires Gap(g)
    ensures Run(g + rest, t) == Run(rest, (if HasBlank(g) then EndWord(t) else t).(i := t.i + |g|))
    decreases |g|
  {
    hide Run, Step, EndWord;
    if g == "" {
      assert g + rest == rest;
    } else {
      var n := if g[0] in " \t\r" then 1 else 2;
      var r, more := g + rest, g[n..] + rest;
      assert r[n..] == more;
      var e := (if g[0] in " \t\r" then EndWord(t) else t).(i := t.i + n);
      if g[0] in " \t\r" {
        StepBlank(r, t);
        EndWordTwice(t);
        EndWordNothing(e);
      } else {
        assert r[1] == g[1];
        StepContinued(r, t);
        EndWordMoved(t, t.i + n);
      }
      RunStep(r, t, e, more);
      ReadGap(g[n..], rest, e);
    }
  }

  lemma EndWordMoved(t: Tok, i: nat)
    ensures EndWord(t.(i := i)) == EndWord(t).(i := i)
  {
  }

  lemma GapStarts(g: string, rest: string)
    requires Gap(g) && g != ""
    ensures (g + rest)[0] in " \t\r\\"
  {
  }

  /* ---- items ------------------------------------------------------------------------------ */

  /** What can stand in a command. */
  datatype Item =
    | Arg(word: seq<Atom>)
    | Redirect(fd: seq<Atom>, op: string, gap: string, word: seq<Atom>)
    | Document(op: string, gap: string, word: seq<Atom>, lines: seq<string>, last: string)

  function ItemText(it: Item): string {
    match it
    case Arg(w) => WordText(w)
    case Redirect(fd, op, gap, w) => WordText(fd) + (op + (gap + WordText(w)))
    case Document(op, gap, w, _, _) => op + (gap + WordText(w))
  }

  function Delimiter(w: seq<Atom>): string { Cut(WordValue(w)) }

  /** The item is read as that when this text follows it. */
  predicate GoodItem(it: Item, after: string) {
    && Written(it.word) && GoodWord(it.word, false, after)
    && match it
       case Arg(_) => true
       case Redirect(fd, op, gap, w) =>
         Number(fd) && GoodWord(fd, false, op + (gap + (WordText(w) + after))) && (OutOp(op) || InOp(op)) && Gap(gap)
       case Document(op, gap, w, lines, last) =>
         && op in ["<<", "<<-"] && Gap(gap) && (op == "<<" && gap == "" ==> !("-" <= WordText(w)))
         && BodyLines(lines, Delimiter(w)) && '\n' !in last && IsDelim(last, Delimiter(w))
  }

  /** A heredoc that waits for its body, and the segment it is for. */
  datatype Doc = Doc(seg: nat, delim: string, lines: seq<string>, last: string)

  /** What has been read: the tokens, the waiting heredocs, and where the words and
      redirects of the present command begin. */
  datatype Page = Page(words: seq<string>, redirs: seq<Redir>, segs: seq<Seg>, subs: seq<Sub>, docs: seq<Doc>,
                       cw0: nat, cr0: nat)

  const BLANK_PAGE: Page := Page([], [], [], [], [], 0, 0)

  /** Where the word of an item stands in its text. */
  function WordAt(it: Item): nat {
    match it
    case Arg(_) => 0
    case Redirect(fd, op, gap, _) => |WordText(fd)| + |op| + |gap|
    case Document(op, gap, _, _, _) => |op| + |gap|
  }

  /** The page with the item whose text is at that offset. */
  function Put(g: Page, it: Item, at: nat): Page {
    var v := WordValue(it.word);
    var h := g.(subs := g.subs + Shifted(WordSubs(it.word), at + WordAt(it)));
    match it
    case Arg(_) => h.(words := g.words + [v])
    case Redirect(_, op, _, _) => if OutOp(op) then h.(redirs := g.redirs + [Redir(|g.segs|, v)]) else h
    case Document(_, _, w, lines, last) => h.(docs := g.docs + [Doc(|g.segs|, Delimiter(w), lines, last)])
  }

  predicate Within(g: Page) {
    && |g.words| <= MAX_WORDS && |g.redirs| <= MAX_REDIR && |g.segs| <= MAX_SEGS && |g.subs| <= MAX_SUBS
    && |g.docs| <= MAX_HD
  }

  function Waiting(ds: seq<Doc>): (hd: seq<Heredoc>)
    ensures |hd| == |ds|
  {
    if ds == [] then [] else Waiting(ds[..|ds| - 1]) + [Heredoc(ds[|ds| - 1].seg, ds[|ds| - 1].delim)]
  }

  /** The state after the page was read, with no word open. */
  predicate Idle(t: Tok, g: Page) {
    && t.word.None? && t.pend == PNone && t.cw0 == g.cw0 && t.cr0 == g.cr0
    && t.hd == Waiting(g.docs) && t.out == Tokens(g.words, g.redirs, g.segs, g.subs)
  }

  /** The same once the open word has ended. */
  predicate Ends(t: Tok, g: Page) { Idle(EndWord(t), g) }

  lemma MovedIdle(t: Tok, g: Page, i: nat, apos: nat)
    requires Idle(t, g)
    ensures Idle(t.(i := i, apos := apos), g)
  {
    hide Waiting;
  }

  lemma IdleEnds(t: Tok, g: Page)
    requires Idle(t, g)
    ensures Ends(t, g) && OpBegin(t) == t
  {
  }

  /** Ending a word a second time changes nothing. */
  lemma EndsEnds(t: Tok, g: Page, i: nat)
    requires Ends(t, g)
    ensures Idle(EndWord(t).(i := i), g) && Ends(EndWord(t).(i := i), g) && EndSeg(EndWord(t)) == EndSeg(t)
  {
    hide Route, Waiting;
    EndWordTwice(t);
    EndWordNothing(EndWord(t));
    EndWordNothing(EndWord(t).(i := i));
  }

  lemma EndsMoved(t: Tok, g: Page, i: nat)
    requires Ends(t, g)
    ensures Ends(t.(i := i), g)
  {
    hide Waiting;
  }

  /** An operator ends a word that is not a number. */
  lemma EndsBegins(t: Tok, g: Page)
    requires Ends(t, g) && (t.word.Some? ==> !t.word.value.digits)
    ensures Idle(OpBegin(t), g)
  {
    hide Route, Waiting;
  }

  /* ---- reading an item ---------------------------------------------------------------------- */

  lemma ReadArg(w: seq<Atom>, rest: string, t: Tok, g: Page) returns (e: Tok)
    requires GoodItem(Arg(w), rest) && Idle(t, g) && Within(g) && Within(Put(g, Arg(w), t.i))
    ensures Run(ItemText(Arg(w)) + rest, t) == Run(rest, e)
    ensures Ends(e, Put(g, Arg(w), t.i)) && e.i == t.i + |ItemText(Arg(w))|
    ensures e.word.Some? && e.word.value.digits == Number(w)
  {
    hide Run, WordText, WordValue, WordSubs, GoodWord, Written, Number, Waiting;
    e := ReadWritten(w, rest, t);
  }

  /** A redirect or heredoc operator is behind, its word ahead. */
  predicate Awaits(t: Tok, g: Page, kind: Pend) {
    && t.word.None? && t.pend == kind && t.cw0 == g.cw0 && t.cr0 == g.cr0
    && t.hd == Waiting(g.docs) && t.out == Tokens(g.words, g.redirs, g.segs, g.subs)
  }

  lemma ReadTarget(gap: string, w: seq<Atom>, rest: string, t: Tok, g: Page, kind: Pend) returns (e: Tok)
    requires Gap(gap) && Written(w) && GoodWord(w, false, rest) && Awaits(t, g, kind)
    requires |g.subs| + |WordSubs(w)| <= MAX_SUBS
    ensures Run(gap + (WordText(w) + rest), t) == Run(rest, e)
    ensures e.word == Some(Word(WordValue(w), Number(w))) && e.i == t.i + |gap| + |WordText(w)|
    ensures Awaits(e.(word := None), g.(subs := g.subs + Shifted(WordSubs(w), t.i + |gap|)), kind)
  {
    hide Run, WordText, WordValue, WordSubs, GoodWord, Written, Number, Waiting, Gap, HasBlank;
    ReadGap(gap, WordText(w) + rest, t);
    EndWordNothing(t);
    e := ReadWritten(w, rest, t.(i := t.i + |gap|));
  }

  /** The text after an operator. */
  lemma TargetStarts(gap: string, w: seq<Atom>, rest: string)
    requires Gap(gap) && Written(w) && GoodWord(w, false, rest)
    ensures var after := gap + (WordText(w) + rest);
            && after != "" && Apart(after) && after[0] != '<'
            && ((gap == "" ==> !("-" <= WordText(w))) ==> after[0] != '-')
  {
    hide WordText, GoodWord, Gap;
    WordStarts(w, rest);
    var after := gap + (WordText(w) + rest);
    if gap == "" {
      assert after == WordText(w) + rest && after[0] == WordText(w)[0];
      assert WordText(w)[..1] == [WordText(w)[0]];
      assert after[0] == '-' ==> "-" <= WordText(w);
    } else {
      GapStarts(gap, WordText(w) + rest);
    }
  }

  lemma ReadOp(op: string, gap: string, w: seq<Atom>, rest: string, t: Tok, g: Page) returns (e: Tok)
    requires (OutOp(op) || InOp(op)) && Gap(gap) && Written(w) && GoodWord(w, false, rest) && Idle(OpBegin(t), g)
    requires var it := Redirect([], op, gap, w); Within(g) && Within(Put(g, it, t.i))
    ensures Run(op + (gap + (WordText(w) + rest)), t) == Run(rest, e)
    ensures Ends(e, Put(g, Redirect([], op, gap, w), t.i)) && e.i == t.i + |op| + |gap| + |WordText(w)|
    ensures e.word.Some? && e.word.value.digits == Number(w)
  {
    hide Run, WordValue, WordSubs, GoodWord, Written, Number, Waiting, OutOp, InOp, OpBegin, Apart, Gap;
    var after := gap + (WordText(w) + rest);
    TargetStarts(gap, w, rest);
    ReadRedirect(op, after, t);
    OpBeginAt(t);
    var kind := if OutOp(op) then POut else PIn;
    var b := OpBegin(t).(pend := kind, i := t.i + |op|);
    e := ReadTarget(gap, w, rest, b, g, kind);
    RedirectRouted(e, g.(subs := g.subs + Shifted(WordSubs(w), b.i + |gap|)), OutOp(op));
  }

  lemma RedirectRouted(t: Tok, g: Page, out: bool)
    requires t.word.Some? && Awaits(t.(word := None), g, if out then POut else PIn) && (out ==> |g.redirs| < MAX_REDIR)
    ensures Ends(t, if out then g.(redirs := g.redirs + [Redir(|g.segs|, t.word.value.text)]) else g)
  {
    hide Waiting;
  }

  lemma ReadDocument(it: Item, rest: string, t: Tok, g: Page) returns (e: Tok)
    requires it.Document? && GoodItem(it, rest) && Idle(OpBegin(t), g) && Within(g) && Within(Put(g, it, t.i))
    ensures Run(it.op + (it.gap + (WordText(it.word) + rest)), t) == Run(rest, e)
    ensures Ends(e, Put(g, it, t.i)) && e.i == t.i + |it.op| + |it.gap| + |WordText(it.word)|
    ensures e.word.Some? && e.word.value.digits == Number(it.word)
  {
    hide Run, Step, WordValue, WordSubs, GoodWord, Written, Number, Waiting, OpBegin, Gap, BodyLines, IsDelim;
    var op, gap, w := it.op, it.gap, it.word;
    var after := gap + (WordText(w) + rest);
    TargetStarts(gap, w, rest);
    StepHeredoc(op, after, t);
    OpBeginAt(t);
    var b := OpBegin(t).(pend := PHeredoc, i := t.i + |op|);
    assert (op + after)[|op|..] == after;
    RunStep(op + after, t, b, after);
    e := ReadTarget(gap, w, rest, b, g, PHeredoc);
    DocumentRouted(e, g.(subs := g.subs + Shifted(WordSubs(w), b.i + |gap|)), it);
  }

  lemma DocumentRouted(t: Tok, g: Page, it: Item)
    requires it.Document? && t.word.Some? && t.word.value.text == WordValue(it.word)
    requires Awaits(t.(word := None), g, PHeredoc) && |g.docs| < MAX_HD
    ensures Ends(t, g.(docs := g.docs + [Doc(|g.segs|, Delimiter(it.word), it.lines, it.last)]))
  {
    var d := Doc(|g.segs|, Delimiter(it.word), it.lines, it.last);
    assert (g.docs + [d])[..|g.docs|] == g.docs;
  }

  /** An item with no number of its own before an operator joins on to a word. */
  predicate Joins(it: Item) { it.Document? || (it.Redirect? && it.fd == []) }

  lemma ReadItem(it: Item, rest: string, t: Tok, g: Page) returns (e: Tok)
    requires GoodItem(it, rest) && Within(g) && Within(Put(g, it, t.i))
    requires if Joins(it) then Idle(OpBegin(t), g) else Idle(t, g)
    ensures Run(ItemText(it) + rest, t) == Run(rest, e)
    ensures Ends(e, Put(g, it, t.i)) && e.i == t.i + |ItemText(it)|
    ensures e.word.Some? && e.word.value.digits == Number(it.word)
  {
    hide Run, WordValue, WordSubs, GoodWord, Written, Number, Idle, Ends, OpBegin, Within, OutOp, InOp, BodyLines,
      IsDelim;
    match it
    case Arg(w) =>
      e := ReadArg(w, rest, t, g);
    case Redirect(fd, op, gap, w) =>
      e := ReadDescribed(it, rest, t, g);
    case Document(op, gap, w, lines, last) =>
      var word := WordText(w);
      Assoc(op, gap + word, rest);
      Assoc(gap, word, rest);
      e := ReadDocument(it, rest, t, g);
  }

  /** A redirect with or without its descriptor. */
  lemma ReadDescribed(it: Item, rest: string, t: Tok, g: Page) returns (e: Tok)
    requires it.Redirect? && GoodItem(it, rest) && Within(g) && Within(Put(g, it, t.i))
    requires if it.fd == [] then Idle(OpBegin(t), g) else Idle(t, g)
    ensures Run(ItemText(it) + rest, t) == Run(rest, e)
    ensures Ends(e, Put(g, it, t.i)) && e.i == t.i + |ItemText(it)|
    ensures e.word.Some? && e.word.value.digits == Number(it.word)
  {
    hide Run, WordText, WordValue, WordSubs, GoodWord, Written, Number, Ends, OutOp, InOp, Waiting, Gap, OpBegin, Put,
      Within;
    var fd, op, gap, w := WordText(it.fd), it.op, it.gap, WordText(it.word);
    Assoc(fd, op + (gap + w), rest);
    Assoc(op, gap + w, rest);
    Assoc(gap, w, rest);
    var after := op + (gap + (w + rest));
    var a := t;
    if it.fd == [] {
      NoText(after);
    } else {
      NumberSubs(it.fd);
      WithinSubs(g);
      a := ReadWritten(it.fd, after, t);
      assert t.out.subs + Shifted([], t.i) == t.out.subs;
      NumberDropped(a, g);
    }
    DescribedPut(g, it, t.i);
    e := ReadOp(op, gap, it.word, rest, a, g);
  }

  lemma NoText(rest: string)
    ensures WordText([]) + rest == rest && WordText([]) == ""
  {
  }

  lemma WithinSubs(g: Page)
    requires Within(g)
    ensures |g.subs| <= MAX_SUBS
  {
  }

  /** The descriptor moves its redirect and does nothing else. */
  lemma DescribedPut(g: Page, it: Item, at: nat)
    requires it.Redirect?
    ensures Put(g, it, at) == Put(g, Redirect([], it.op, it.gap, it.word), at + |WordText(it.fd)|)
  {
    hide WordValue, WordSubs, OutOp, Shifted;
    NoText("");
    assert at + WordAt(it) == at + |WordText(it.fd)| + WordAt(Redirect([], it.op, it.gap, it.word));
  }

  lemma NumberDropped(t: Tok, g: Page)
    requires Idle(t.(word := None), g) && (t.word.Some? ==> t.word.value.digits)
    ensures Idle(OpBegin(t), g)
  {
    hide Waiting;
  }

  lemma {:induction false} NumberSubs(w: seq<Atom>)
    requires Number(w)
    ensures WordSubs(w) == []
    decreases |w|
  {
    if w != [] {
      assert AtomNumber(w[0]);
      NumberMore(w);
      NumberSubs(w[1..]);
      assert Shifted([], |AtomText(w[0])|) == [];
    }
  }

  /* ---- the items of a command ------------------------------------------------------------------- */

  datatype Placed = Placed(gap: string, item: Item)

  function PlacedText(ps: seq<Placed>): string {
    if ps == [] then "" else ps[0].gap + (ItemText(ps[0].item) + PlacedText(ps[1..]))
  }

  /** Items are set apart by a blank, unless an operator follows a word that is no
      number. `free` when no word is open before them, `word` when one is open that
      is no number. */
  predicate Fitting(ps: seq<Placed>, free: bool, word: bool, after: string) {
    ps != [] ==>
      var p := ps[0];
      && Gap(p.gap) && GoodItem(p.item, PlacedText(ps[1..]) + after)
      && (free || HasBlank(p.gap) || (word && Joins(p.item)))
      && Fitting(ps[1..], false, !Number(p.item.word), after)
  }

  function PutAll(g: Page, ps: seq<Placed>, at: nat): Page
    decreases |ps|
  {
    if ps == [] then g
    else
      var k := at + |ps[0].gap|;
      PutAll(Put(g, ps[0].item, k), ps[1..], k + |ItemText(ps[0].item)|)
  }

  lemma PutWithin(g: Page, it: Item, at: nat)
    requires Within(Put(g, it, at))
    ensures Within(g)
  {
    hide WordValue, WordText, WordSubs;
  }

  lemma {:induction false} PutAllWithin(g: Page, ps: seq<Placed>, at: nat)
    requires Within(PutAll(g, ps, at))
    ensures Within(g)
    decreases |ps|
  {
    hide Within, Put, ItemText;
    if ps != [] {
      var k := at + |ps[0].gap|;
      PutAllWithin(Put(g, ps[0].item, k), ps[1..], k + |ItemText(ps[0].item)|);
      PutWithin(g, ps[0].item, k);
    }
  }

  /** What is known of the word open before an item. */
  predicate Before(t: Tok, free: bool, word: bool) {
    (free ==> t.word.None?) && (word ==> t.word.Some? ==> !t.word.value.digits)
  }

  lemma ReadFirst(p: Placed, free: bool, word: bool, rest: string, t: Tok, g: Page) returns (e: Tok)
    requires Gap(p.gap) && GoodItem(p.item, rest) && (free || HasBlank(p.gap) || (word && Joins(p.item)))
    requires Ends(t, g) && Before(t, free, word) && Within(g) && Within(Put(g, p.item, t.i + |p.gap|))
    ensures Run(p.gap + (ItemText(p.item) + rest), t) == Run(rest, e)
    ensures Ends(e, Put(g, p.item, t.i + |p.gap|)) && Before(e, false, !Number(p.item.word))
    ensures e.i == t.i + |p.gap| + |ItemText(p.item)|
  {
    hide Run, ItemText, GoodItem, Within, Put, Gap, HasBlank, Ends, Idle, EndWord, OpBegin, Number;
    var i := t.i + |p.gap|;
    ReadGap(p.gap, ItemText(p.item) + rest, t);
    var a := (if HasBlank(p.gap) then EndWord(t) else t).(i := i);
    EndsEnds(t, g, i);
    EndsMoved(t, g, i);
    EndWordTwice(t);
    if free || HasBlank(p.gap) {
      assert a.word.None?;
      FreeIdle(a, g);
    } else {
      EndsBegins(a, g);
    }
    e := ReadItem(p.item, rest, a, g);
  }

  lemma FreeIdle(t: Tok, g: Page)
    requires Ends(t, g) && t.word.None?
    ensures Idle(t, g) && Idle(OpBegin(t), g)
  {
    hide Waiting;
  }

  lemma {:induction false} ReadPlaced(ps: seq<Placed>, free: bool, word: bool, rest: string, t: Tok, g: Page)
    returns (e: Tok)
    requires Fitting(ps, free, word, rest) && Ends(t, g) && Before(t, free, word) && Within(PutAll(g, ps, t.i))
    ensures Run(PlacedText(ps) + rest, t) == Run(rest, e)
    ensures Ends(e, PutAll(g, ps, t.i)) && e.i == t.i + |PlacedText(ps)| && (ps == [] && free ==> e.word.None?)
    decreases |ps|
  {
    hide Run, ItemText, GoodItem, Within, Put, Gap, HasBlank, Ends, Number, Joins, Before;
    if ps == [] {
      assert PlacedText(ps) + rest == rest;
      BeforeFree(t, free, word);
      e := t;
    } else {
      var p, more := ps[0], PlacedText(ps[1..]);
      var item, k := ItemText(p.item), t.i + |p.gap|;
      Assoc(p.gap, item + more, rest);
      Assoc(item, more, rest);
      PutAllWithin(Put(g, p.item, k), ps[1..], k + |item|);
      PutWithin(g, p.item, k);
      var a := ReadFirst(p, free, word, more + rest, t, g);
      e := ReadPlaced(ps[1..], false, !Number(p.item.word), rest, a, Put(g, p.item, k));
    }
  }

  lemma BeforeFree(t: Tok, free: bool, word: bool)
    requires Before(t, free, word)
    ensures free ==> t.word.None?
  {
  }

  /* ---- separated commands -------------------------------------------------------------------------- */

  /** A command and the separator that ends it. */
  datatype Cmd = Cmd(items: seq<Placed>, gap: string, op: string)

  function CmdText(c: Cmd): string { PlacedText(c.items) + (c.gap + c.op) }

  function CmdsText(cmds: seq<Cmd>): string {
    if cmds == [] then "" else CmdText(cmds[0]) + CmdsText(cmds[1..])
  }

  predicate GoodCmd(c: Cmd, after: string) {
    Fitting(c.items, true, false, c.gap + (c.op + after)) && Gap(c.gap) && c.op != "\n" && Separator(c.op, after)
  }

  predicate GoodCmds(cmds: seq<Cmd>, after: string) {
    cmds != [] ==> GoodCmd(cmds[0], CmdsText(cmds[1..]) + after) && GoodCmds(cmds[1..], after)
  }

  /** A command becomes a segment if it has a word or a recorded target. */
  function Close(g: Page): Page {
    g.(segs := if |g.words| > g.cw0 || |g.redirs| > g.cr0
       then g.segs + [Seg(g.cw0, if |g.words| > g.cw0 then |g.words| - g.cw0 else 0, None)] else g.segs,
       cw0 := |g.words|, cr0 := |g.redirs|)
  }

  function PutCmds(g: Page, cmds: seq<Cmd>, at: nat): Page
    decreases |cmds|
  {
    if cmds == [] then g
    else PutCmds(Close(PutAll(g, cmds[0].items, at)), cmds[1..], at + |CmdText(cmds[0])|)
  }

  lemma CloseWithin(g: Page)
    requires Within(Close(g))
    ensures Within(g)
  {
  }

  lemma {:induction false} PutCmdsWithin(g: Page, cmds: seq<Cmd>, at: nat)
    requires Within(PutCmds(g, cmds, at))
    ensures Within(g)
    decreases |cmds|
  {
    hide Within, PutAll, Close, CmdText;
    if cmds != [] {
      var h := PutAll(g, cmds[0].items, at);
      PutCmdsWithin(Close(h), cmds[1..], at + |CmdText(cmds[0])|);
      CloseWithin(h);
      PutAllWithin(g, cmds[0].items, at);
    }
  }

  /** Whatever ends the command closes its segment. */
  lemma EndsCloses(t: Tok, g: Page)
    requires Ends(t, g) && Within(Close(g))
    ensures Idle(EndSeg(t), Close(g))
  {
    hide EndWord, Waiting;
  }

  lemma ReadCmd(c: Cmd, rest: string, t: Tok, g: Page) returns (e: Tok)
    requires GoodCmd(c, rest) && Idle(t, g) && Within(Close(PutAll(g, c.items, t.i)))
    ensures Run(CmdText(c) + rest, t) == Run(rest, e)
    ensures Idle(e, Close(PutAll(g, c.items, t.i))) && e.i == t.i + |CmdText(c)|
  {
    hide Run, Step, Fitting, PlacedText, PutAll, Within, Close, Gap, HasBlank, Separator, EndWord, EndSeg, Ends, Idle;
    var items, gap, op := PlacedText(c.items), c.gap, c.op;
    Assoc(items, gap + op, rest);
    Assoc(gap, op, rest);
    CloseWithin(PutAll(g, c.items, t.i));
    IdleEnds(t, g);
    IdleFree(t, g);
    var a := ReadPlaced(c.items, true, false, gap + (op + rest), t, g);
    var h := PutAll(g, c.items, t.i);
    ReadGap(gap, op + rest, a);
    var b := (if HasBlank(gap) then EndWord(a) else a).(i := a.i + |gap|);
    EndsEnds(a, h, b.i);
    EndsMoved(a, h, b.i);
    StepSeparator(op, rest, b);
    EndsCloses(b, h);
    e := EndSeg(b).(i := b.i + |op|);
    MovedIdle(EndSeg(b), Close(h), b.i + |op|, EndSeg(b).apos);
    assert (op + rest)[|op|..] == rest;
    SeparatorNotEmpty(op, rest);
    RunStep(op + rest, b, e, rest);
  }

  lemma IdleFree(t: Tok, g: Page)
    requires Idle(t, g)
    ensures Before(t, true, false)
  {
    hide Waiting;
  }

  lemma {:induction false} ReadCmds(cmds: seq<Cmd>, rest: string, t: Tok, g: Page) returns (e: Tok)
    requires GoodCmds(cmds, rest) && Idle(t, g) && Within(PutCmds(g, cmds, t.i))
    ensures Run(CmdsText(cmds) + rest, t) == Run(rest, e)
    ensures Idle(e, PutCmds(g, cmds, t.i)) && e.i == t.i + |CmdsText(cmds)|
    decreases |cmds|
  {
    hide Run, CmdText, GoodCmd, Idle, Within, PutAll, Close;
    if cmds == [] {
      assert CmdsText(cmds) + rest == rest;
      e := t;
    } else {
      var c, more := cmds[0], CmdsText(cmds[1..]);
      Assoc(CmdText(c), more, rest);
      PutCmdsWithin(Close(PutAll(g, c.items, t.i)), cmds[1..], t.i + |CmdText(c)|);
      var a := ReadCmd(c, more + rest, t, g);
      e := ReadCmds(cmds[1..], rest, a, Close(PutAll(g, c.items, t.i)));
    }
  }

  /* ---- lines -------------------------------------------------------------------------------------- */

  /** Commands with their separators, a last command, and a comment. */
  datatype Line = Line(cmds: seq<Cmd>, last: seq<Placed>, gap: string, comment: string)

  function LineText(l: Line): string {
    CmdsText(l.cmds) + (PlacedText(l.last) + (l.gap + l.comment))
  }

  predicate GoodLine(l: Line, after: string) {
    && GoodCmds(l.cmds, PlacedText(l.last) + (l.gap + (l.comment + after)))
    && Fitting(l.last, true, false, l.gap + (l.comment + after)) && Gap(l.gap)
    && (l.comment != "" ==> l.comment[0] == '#' && '\n' !in l.comment && (l.last == [] || HasBlank(l.gap)))
  }

  /** What a line amounts to, heredoc bodies aside. */
  function PageOf(l: Line): Page {
    Close(PutAll(PutCmds(BLANK_PAGE, l.cmds, 0), l.last, |CmdsText(l.cmds)|))
  }

  lemma ReadComment(comment: string, rest: string, t: Tok)
    requires comment != "" ==> comment[0] == '#' && '\n' !in comment && t.word.None?
    requires rest == "" || rest[0] == '\n'
    ensures Run(comment + rest, t) == Run(rest, t.(i := t.i + |comment|))
  {
    hide Run, Step;
    if comment == "" {
      assert comment + rest == rest;
    } else {
      StepComment(comment, rest, t);
      assert (comment + rest)[|comment|..] == rest;
      RunStep(comment + rest, t, t.(i := t.i + |comment|), rest);
    }
  }

  lemma ReadLine(l: Line, rest: string) returns (e: Tok)
    requires GoodLine(l, rest) && Within(PageOf(l)) && (rest == "" || rest[0] == '\n')
    ensures Run(LineText(l) + rest, START) == Run(rest, e) && e.i == |LineText(l)|
    ensures Idle(EndSeg(e), PageOf(l))
  {
    hide Run, GoodCmds, CmdsText, Fitting, PlacedText, PutAll, PutCmds, Within, Close, Gap, HasBlank, EndWord, EndSeg,
      Ends, Idle;
    var cmds, last, tail := CmdsText(l.cmds), PlacedText(l.last), l.comment + rest;
    var g := PutCmds(BLANK_PAGE, l.cmds, 0);
    var h := PutAll(g, l.last, |cmds|);
    Assoc(cmds, last + (l.gap + l.comment), rest);
    Assoc(last, l.gap + l.comment, rest);
    Assoc(l.gap, l.comment, rest);
    CloseWithin(h);
    PutAllWithin(g, l.last, |cmds|);
    StartIdle();
    var a := ReadCmds(l.cmds, last + (l.gap + tail), START, BLANK_PAGE);
    IdleEnds(a, g);
    IdleFree(a, g);
    var b := ReadPlaced(l.last, true, false, l.gap + tail, a, g);
    ReadGap(l.gap, tail, b);
    var c := (if HasBlank(l.gap) then EndWord(b) else b).(i := b.i + |l.gap|);
    EndsEnds(b, h, c.i);
    EndsMoved(b, h, c.i);
    EndWordTwice(b);
    ReadComment(l.comment, rest, c);
    e := c.(i := c.i + |l.comment|);
    EndsMoved(c, h, e.i);
    EndsCloses(e, h);
  }

  lemma StartIdle()
    ensures Idle(START, BLANK_PAGE)
  {
  }

  /* ---- the bodies ------------------------------------------------------------------------------------ */

  function DocText(d: Doc): string { Joined(d.lines) + (d.last + "\n") }

  function DocsText(ds: seq<Doc>): string {
    if ds == [] then "" else DocText(ds[0]) + DocsText(ds[1..])
  }

  predicate GoodDoc(d: Doc) {
    BodyLines(d.lines, d.delim) && '\n' !in d.last && IsDelim(d.last, d.delim)
  }

  /** The body of segment k among the documents whose text starts at p: that of the
      first document for it. */
  function BodyFor(ds: seq<Doc>, k: nat, p: nat): Option<Sub> {
    if ds == [] then None
    else if ds[0].seg == k then Some(Sub(p, |Joined(ds[0].lines)|))
    else BodyFor(ds[1..], k, p + |DocText(ds[0])|)
  }

  function Fed(segs: seq<Seg>, ds: seq<Doc>, p: nat): (r: seq<Seg>)
    ensures |r| == |segs|
    ensures forall k :: 0 <= k < |segs| ==>
      r[k] == if segs[k].body.Some? then segs[k] else segs[k].(body := BodyFor(ds, k, p))
  {
    seq(|segs|, k requires 0 <= k < |segs| =>
      if segs[k].body.Some? then segs[k] else segs[k].(body := BodyFor(ds, k, p)))
  }

  lemma WaitingFirst(ds: seq<Doc>)
    requires ds != []
    ensures Waiting(ds) == [Heredoc(ds[0].seg, ds[0].delim)] + Waiting(ds[1..])
    decreases |ds|
  {
    var n := |ds| - 1;
    if n > 0 {
      WaitingFirst(ds[..n]);
      assert ds[..n][1..] == ds[1..][..n - 1];
    } else {
      assert ds[..0] == [] && ds[1..] == [];
    }
  }

  /** Each waiting heredoc takes its body in order, and a segment keeps its first. */
  lemma {:induction false} BodiesAre(ds: seq<Doc>, rest: string, p: nat, segs: seq<Seg>)
    requires forall i :: 0 <= i < |ds| ==> GoodDoc(ds[i])
    ensures Bodies(DocsText(ds) + rest, p, Waiting(ds), segs) == (|DocsText(ds)|, Fed(segs, ds, p))
    decreases |ds|
  {
    hide HeredocBody, Joined, Bodies, BodyLines, IsDelim, Attach, Waiting;
    if ds == [] {
      assert Waiting([]) == [];
      NoBodies(DocsText(ds) + rest, p, segs);
      assert Fed(segs, ds, p) == segs;
    } else {
      var d, more := ds[0], DocsText(ds[1..]);
      var j, last := Joined(d.lines), d.last;
      var r := j + (last + ("\n" + (more + rest)));
      Assoc(DocText(d), more, rest);
      Assoc(j, last + "\n", more + rest);
      Assoc(last, "\n", more + rest);
      assert GoodDoc(d);
      ReadBody(d.lines, last, d.delim, more + rest);
      LastLine(j, last, more + rest);
      WaitingFirst(ds);
      BodiesStep(r, p, Heredoc(d.seg, d.delim), Waiting(ds[1..]), segs);
      var next := Attach(segs, d.seg, Sub(p, |j|));
      BodiesAre(ds[1..], rest, p + |DocText(d)|, next);
      AttachFeeds(segs, ds, p);
    }
  }

  lemma AttachFeeds(segs: seq<Seg>, ds: seq<Doc>, p: nat)
    requires ds != []
    ensures Fed(Attach(segs, ds[0].seg, Sub(p, |Joined(ds[0].lines)|)), ds[1..], p + |DocText(ds[0])|)
         == Fed(segs, ds, p)
  {
    hide Joined, DocText;
  }

  /** The documents of a page are those of its items. */
  predicate GoodDocs(g: Page) { forall i :: 0 <= i < |g.docs| ==> GoodDoc(g.docs[i]) }

  lemma PutDocs(g: Page, it: Item, at: nat, after: string)
    requires GoodDocs(g) && GoodItem(it, after)
    ensures GoodDocs(Put(g, it, at))
  {
    hide WordText, WordValue, WordSubs, GoodWord, Written, Number, BodyLines, IsDelim, OutOp, InOp, Gap;
  }

  lemma {:induction false} PutAllDocs(g: Page, ps: seq<Placed>, free: bool, word: bool, after: string, at: nat)
    requires GoodDocs(g) && Fitting(ps, free, word, after)
    ensures GoodDocs(PutAll(g, ps, at))
    decreases |ps|
  {
    hide GoodItem, GoodDocs, Put, Number, ItemText, Gap, HasBlank, Joins;
    if ps != [] {
      var it, k := ps[0].item, at + |ps[0].gap|;
      PutDocs(g, it, k, PlacedText(ps[1..]) + after);
      PutAllDocs(Put(g, it, k), ps[1..], false, !Number(it.word), after, k + |ItemText(it)|);
    }
  }

  lemma {:induction false} PutCmdsDocs(g: Page, cmds: seq<Cmd>, after: string, at: nat)
    requires GoodDocs(g) && GoodCmds(cmds, after)
    ensures GoodDocs(PutCmds(g, cmds, at))
    decreases |cmds|
  {
    hide Fitting, PutAll, GoodDoc, PlacedText, Separator, Gap;
    if cmds != [] {
      var c := cmds[0];
      PutAllDocs(g, c.items, true, false, c.gap + (c.op + (CmdsText(cmds[1..]) + after)), at);
      assert GoodDocs(Close(PutAll(g, c.items, at)));
      PutCmdsDocs(Close(PutAll(g, c.items, at)), cmds[1..], after, at + |CmdText(c)|);
    }
  }

  lemma LineDocs(l: Line, after: string)
    requires GoodLine(l, after)
    ensures GoodDocs(PageOf(l))
  {
    hide Fitting, GoodCmds, PutCmds, PutAll, GoodDoc, PlacedText, Gap, HasBlank, CmdsText;
    PutCmdsDocs(BLANK_PAGE, l.cmds, PlacedText(l.last) + (l.gap + (l.comment + after)), 0);
    PutAllDocs(PutCmds(BLANK_PAGE, l.cmds, 0), l.last, true, false, l.gap + (l.comment + after), |CmdsText(l.cmds)|);
  }

  /** The tokens of a line whose documents start at p. */
  function TokensOf(g: Page, p: nat): Tokens {
    Tokens(g.words, g.redirs, Fed(g.segs, g.docs, p), g.subs)
  }

  /** The newline reads the bodies and leaves nothing behind. */
  lemma NewlineReads(r: string, rest: string, t: Tok, g: Page)
    requires GoodDocs(g) && Idle(EndSeg(t), g) && g.cw0 == |g.words| && g.cr0 == |g.redirs|
    requires r != "" && r[0] == '\n' && r[1..] == DocsText(g.docs) + rest
    ensures var e := Step(r, t);
            Settled(e) && e.i == t.i + 1 + |DocsText(g.docs)| && e.out == TokensOf(g, t.i + 1)
  {
    hide EndSeg, Step, Bodies, DocsText, GoodDoc, Waiting, Fed;
    StepNewline(r, t);
    BodiesAre(g.docs, rest, t.i + 1, g.segs);
  }

  /** For every line of commands, in every spelling, and any text after the bodies:
      its words, recorded targets, segments and substitutions are those of its items,
      each body feeds the command its heredoc stands in, none is read as commands, and
      the text after them is tokenized on its own. */
  lemma LineTokenized(l: Line, rest: string)
    requires GoodLine(l, "\n" + (DocsText(PageOf(l).docs) + rest)) && Within(PageOf(l))
    requires Fits(TokensOf(PageOf(l), |LineText(l)| + 1), Tokenize(rest))
    ensures var docs := DocsText(PageOf(l).docs);
            Tokenize(LineText(l) + ("\n" + (docs + rest)))
            == Beside(TokensOf(PageOf(l), |LineText(l)| + 1), Tokenize(rest), |LineText(l)| + 1 + |docs|)
  {
    hide Run, Step, LineText, PageOf, GoodLine, Within, Idle, DocsText, Fits, Beside, EndSeg, TokensOf, GoodDocs;
    var g := PageOf(l);
    var docs := DocsText(g.docs);
    var r := "\n" + (docs + rest);
    var a := ReadLine(l, r);
    LineDocs(l, r);
    PageClosed(l);
    assert r[1..] == docs + rest;
    NewlineReads(r, rest, a, g);
    var e := Step(r, a);
    assert r[1 + |docs|..] == rest by { assert (docs + rest)[|docs|..] == rest; }
    RunStep(r, a, e, rest);
    SettledThen(e, rest);
  }

  lemma PageClosed(l: Line)
    ensures PageOf(l).cw0 == |PageOf(l).words| && PageOf(l).cr0 == |PageOf(l).redirs|
  {
    hide PutAll, PutCmds, CmdsText;
  }

  /** The same for the last line of a text; a heredoc left waiting there feeds nothing. */
  lemma LastLineTokenized(l: Line)
    requires GoodLine(l, "") && Within(PageOf(l))
    ensures var g := PageOf(l); Tokenize(LineText(l)) == Tokens(g.words, g.redirs, g.segs, g.subs)
  {
    hide Run, LineText, PageOf, GoodLine, Within, Waiting, EndSeg;
    var e := ReadLine(l, "");
    assert LineText(l) + "" == LineText(l);
    RunEmpty(e);
  }

  /* ---- continuations ----------------------------------------------------------------------------------- */

  /** The word, the gap, the item, the commands and the line without their
      continuations. */
  function StraightWord(w: seq<Atom>): seq<Atom> {
    if w == [] then [] else (if w[0].Continued? then [] else [w[0]]) + StraightWord(w[1..])
  }

  function StraightGap(g: string): string
    requires Gap(g)
  {
    if g == "" then "" else if g[0] in " \t\r" then [g[0]] + StraightGap(g[1..]) else StraightGap(g[2..])
  }

  function StraightItem(it: Item): Item {
    match it
    case Arg(w) => Arg(StraightWord(w))
    case Redirect(fd, op, gap, w) =>
      Redirect(StraightWord(fd), op, if Gap(gap) then StraightGap(gap) else gap, StraightWord(w))
    case Document(op, gap, w, lines, last) =>
      Document(op, if Gap(gap) then StraightGap(gap) else gap, StraightWord(w), lines, last)
  }

  function StraightItems(ps: seq<Placed>): (r: seq<Placed>)
    ensures |r| == |ps|
  {
    if ps == [] then []
    else
      var p := ps[0];
      [Placed(if Gap(p.gap) then StraightGap(p.gap) else p.gap, StraightItem(p.item))] + StraightItems(ps[1..])
  }

  function StraightCmds(cmds: seq<Cmd>): (r: seq<Cmd>)
    ensures |r| == |cmds|
  {
    if cmds == [] then []
    else
      var c := cmds[0];
      [Cmd(StraightItems(c.items), if Gap(c.gap) then StraightGap(c.gap) else c.gap, c.op)] + StraightCmds(cmds[1..])
  }

  function StraightLine(l: Line): Line {
    Line(StraightCmds(l.cmds), StraightItems(l.last), if Gap(l.gap) then StraightGap(l.gap) else l.gap, l.comment)
  }

  /** Pages that differ in offsets only. */
  predicate Alike(g: Page, h: Page) {
    && g.words == h.words && g.redirs == h.redirs && g.segs == h.segs && g.docs == h.docs && g.cw0 == h.cw0
    && g.cr0 == h.cr0
  }

  lemma {:induction false} StraightValue(w: seq<Atom>)
    ensures WordValue(StraightWord(w)) == WordValue(w)
    decreases |w|
  {
    hide AtomValue;
    if w != [] {
      StraightValue(w[1..]);
      if w[0].Continued? {
        assert AtomValue(w[0]) == "" by { ContinuedAdds(); }
        assert [] + StraightWord(w[1..]) == StraightWord(w[1..]);
      } else {
        assert StraightWord(w)[0] == w[0] && StraightWord(w)[1..] == StraightWord(w[1..]);
      }
    }
  }

  lemma PutAlike(g: Page, h: Page, it: Item, at: nat, at': nat)
    requires Alike(g, h)
    ensures Alike(Put(g, it, at), Put(h, StraightItem(it), at'))
  {
    hide WordText, WordValue, WordSubs, Gap, StraightGap, StraightWord, OutOp;
    StraightValue(it.word);
  }

  lemma {:induction false} PutAllAlike(g: Page, h: Page, ps: seq<Placed>, at: nat, at': nat)
    requires Alike(g, h)
    ensures Alike(PutAll(g, ps, at), PutAll(h, StraightItems(ps), at'))
    decreases |ps|
  {
    hide Put, ItemText, StraightItem, Gap, StraightGap, Alike;
    if ps != [] {
      var q := StraightItems(ps);
      var k, k' := at + |ps[0].gap|, at' + |q[0].gap|;
      PutAlike(g, h, ps[0].item, k, k');
      assert q[1..] == StraightItems(ps[1..]) && q[0].item == StraightItem(ps[0].item);
      PutAllAlike(Put(g, ps[0].item, k), Put(h, q[0].item, k'), ps[1..], k + |ItemText(ps[0].item)|,
                  k' + |ItemText(q[0].item)|);
    }
  }

  lemma CloseAlike(g: Page, h: Page)
    requires Alike(g, h)
    ensures Alike(Close(g), Close(h))
  {
  }

  lemma {:induction false} PutCmdsAlike(g: Page, h: Page, cmds: seq<Cmd>, at: nat, at': nat)
    requires Alike(g, h)
    ensures Alike(PutCmds(g, cmds, at), PutCmds(h, StraightCmds(cmds), at'))
    decreases |cmds|
  {
    hide PutAll, CmdText, StraightItems, Gap, StraightGap, Alike, Close;
    if cmds != [] {
      var d := StraightCmds(cmds);
      assert d[0].items == StraightItems(cmds[0].items) && d[1..] == StraightCmds(cmds[1..]);
      PutAllAlike(g, h, cmds[0].items, at, at');
      var x, y := PutAll(g, cmds[0].items, at), PutAll(h, d[0].items, at');
      CloseAlike(x, y);
      PutCmdsAlike(Close(x), Close(y), cmds[1..], at + |CmdText(cmds[0])|, at' + |CmdText(d[0])|);
    }
  }

  lemma PagesAlike(l: Line)
    ensures Alike(PageOf(l), PageOf(StraightLine(l)))
  {
    hide PutAll, PutCmds, Close, StraightItems, StraightCmds, Gap, StraightGap, CmdsText;
    PutCmdsAlike(BLANK_PAGE, BLANK_PAGE, l.cmds, 0, 0);
    var g, h := PutCmds(BLANK_PAGE, l.cmds, 0), PutCmds(BLANK_PAGE, StraightCmds(l.cmds), 0);
    PutAllAlike(g, h, l.last, |CmdsText(l.cmds)|, |CmdsText(StraightCmds(l.cmds))|);
    var x := PutAll(g, l.last, |CmdsText(l.cmds)|);
    CloseAlike(x, PutAll(h, StraightItems(l.last), |CmdsText(StraightCmds(l.cmds))|));
  }

  /** Continuations between and inside the items of a line change no word, no target
      and no segment. */
  lemma ContinuationsVanish(l: Line)
    requires GoodLine(l, "") && Within(PageOf(l))
    requires GoodLine(StraightLine(l), "") && Within(PageOf(StraightLine(l)))
    ensures var a, b := Tokenize(LineText(l)), Tokenize(LineText(StraightLine(l)));
            a.words == b.words && a.redirs == b.redirs && a.segs == b.segs
  {
    hide Run, LineText, PageOf, GoodLine, Within, StraightLine;
    PagesAlike(l);
    LastLineTokenized(l);
    LastLineTokenized(StraightLine(l));
  }

  /** A bare word. */
  function BareWord(u: string): seq<Atom> { if u == "" then [] else [Letters(u)] }

  /** A bare word continued on the next line is one word. */
  lemma ContinuedWord(u: string, v: string)
    requires u + v != "" && Bare(u + v) && (u + v)[0] != '#'
    ensures Tokenize(u + ("\\\n" + v)) == Command([u + v])
  {
    var w := BareWord(u) + [Continued] + BareWord(v);
    ContinuedGood(u, v);
    hide GoodWord, WordText, WordValue, WordSubs, Run, Bare;
    var l := Line([], [Placed("", Arg(w))], "", "");
    OneArg(w);
    LastLineTokenized(l);
  }

  lemma ContinuedGood(u: string, v: string)
    requires u + v != "" && Bare(u + v) && (u + v)[0] != '#'
    ensures var w := BareWord(u) + [Continued] + BareWord(v);
            && Written(w) && GoodWord(w, false, "") && WordText(w) == u + ("\\\n" + v) && WordValue(w) == u + v
            && WordSubs(w) == []
  {
    hide GoodWord, WordText, WordValue, WordSubs, Bare;
    var tail := [Continued] + BareWord(v);
    assert Bare(u) && Bare(v) by { BareHalves(u, v); }
    if u == "" {
      assert u + v == v && u + ("\\\n" + v) == "\\\n" + v;
      ContinuedTail(v, false);
      assert BareWord(u) + [Continued] + BareWord(v) == tail && tail[1] == Letters(v);
    } else {
      ContinuedTail(v, true);
      LettersThen(u, tail);
      assert BareWord(u) + [Continued] + BareWord(v) == [Letters(u)] + tail;
      assert ([Letters(u)] + tail)[0] == Letters(u);
    }
  }

  lemma BareHalves(u: string, v: string)
    requires Bare(u + v)
    ensures Bare(u) && Bare(v)
  {
    assert forall i :: 0 <= i < |u| ==> u[i] == (u + v)[i];
    assert forall i :: 0 <= i < |v| ==> v[i] == (u + v)[|u| + i];
  }

  /** A continuation and what is left of the word. */
  lemma ContinuedTail(v: string, inside: bool)
    requires Bare(v) && (v != "" ==> inside || v[0] != '#')
    ensures var w := [Continued] + BareWord(v);
            && GoodWord(w, inside, "") && WordText(w) == "\\\n" + v && WordValue(w) == v && WordSubs(w) == []
  {
    BareTail(v, inside);
    var w := [Continued] + BareWord(v);
    assert w[0] == Continued && w[1..] == BareWord(v);
    assert Shifted([], 2) == [];
  }

  lemma LettersThen(u: string, tail: seq<Atom>)
    requires u != "" && Bare(u) && u[0] != '#' && GoodWord(tail, true, "") && WordSubs(tail) == []
    requires WordText(tail) != "" && WordText(tail)[0] == '\\'
    ensures var w := [Letters(u)] + tail;
            && GoodWord(w, false, "") && WordText(w) == u + WordText(tail) && WordValue(w) == u + WordValue(tail)
            && WordSubs(w) == []
  {
    var w := [Letters(u)] + tail;
    assert w[0] == Letters(u) && w[1..] == tail;
    assert (WordText(tail) + "")[0] == '\\';
    assert Shifted([], |u|) == [];
  }

  lemma BareTail(v: string, inside: bool)
    requires Bare(v) && (v != "" ==> inside || v[0] != '#')
    ensures WordText(BareWord(v)) == v && WordValue(BareWord(v)) == v && WordSubs(BareWord(v)) == []
    ensures GoodWord(BareWord(v), inside, "")
  {
    var w := BareWord(v);
    if v != "" {
      assert w[1..] == [];
      assert v + "" == v && Shifted([], |v|) == [];
      assert WordText(w[1..]) + "" == "";
    }
  }

  /** A line of one word. */
  lemma OneArg(w: seq<Atom>)
    requires Written(w) && GoodWord(w, false, "") && |WordSubs(w)| <= MAX_SUBS
    ensures var l := Line([], [Placed("", Arg(w))], "", "");
            && GoodLine(l, "") && Within(PageOf(l)) && LineText(l) == WordText(w)
            && PageOf(l) == Page([WordValue(w)], [], [Seg(0, 1, None)], WordSubs(w), [], 1, 0)
  {
    hide GoodWord, WordText, WordValue, WordSubs, Written;
    var p := Placed("", Arg(w));
    assert [p][1..] == [];
    assert "" + ("" + "") == "" && PlacedText([]) + "" == "";
    assert WordText(w) + "" == WordText(w) && "" + WordText(w) == WordText(w);
    assert PlacedText([p]) == WordText(w);
    assert GoodItem(Arg(w), "");
    assert Fitting([], false, !Number(w), "");
    assert Fitting([p], true, false, "");
    assert Shifted(WordSubs(w), 0) == WordSubs(w);
    assert [] + [WordValue(w)] == [WordValue(w)] && [] + WordSubs(w) == WordSubs(w);
    assert PutAll(BLANK_PAGE, [p], 0) == Put(BLANK_PAGE, Arg(w), 0);
  }
}
