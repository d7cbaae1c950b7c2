/** What the tokenizer reads in commands written with quoted words: separators,
    redirects, heredocs, comments, and the other two ways of quoting. */
module ShellCommands {
  import opened Wrappers
  import opened Text
  import opened ShellScan
  import opened ShellTok
  import opened ShellCompose
  import opened ShellQuoting

  /* ---- separators -------------------------------------------------------------------- */

  /** op separates commands when this text follows it. */
  predicate Separator(op: string, rest: string) {
    || op in [";", "(", ")", "`", "&&", "||", "|&", "$(", ">(", "<(", "\n"]
    || (op == "|" && (rest == "" || rest[0] !in "|&"))
    || (op == "&" && (rest == "" || rest[0] !in "&>"))
  }

  /** A separator ends the segment and nothing else; heredocs keep waiting, unless it
      is the newline. */
  lemma StepSeparator(op: string, rest: string, t: Tok)
    requires Separator(op, rest) && (op == "\n" ==> EndSeg(t).hd == [])
    ensures Step(op + rest, t) == EndSeg(t).(i := t.i + |op|)
  {
    hide EndSeg, EndWord, OpBegin, SingleQuote, DoubleQuote, RedirTail, Newline, Span;
    EndSegKeeps(t);
    var r := op + rest;
    if op == "\n" { NewlineAlone(r, t); }
    assert r[0] == op[0];
    assert |op| == 1 && rest != "" ==> r[1] == rest[0];
    assert |op| == 2 ==> r[1] == op[1];
  }

  lemma NewlineAlone(r: string, t: Tok)
    requires r != "" && EndSeg(t).hd == []
    ensures Newline(r, t) == EndSeg(t).(i := t.i + 1)
  {
    hide EndSeg;
    assert EndSeg(t).out.(segs := EndSeg(t).out.segs) == EndSeg(t).out;
  }

  /** For all words and any text after the separator: the words are one command,
      and the text after it is tokenized on its own. */
  lemma SeparatorSplits(words: seq<string>, gap: string, op: string, rest: string)
    requires 1 <= |words| <= MAX_WORDS && Blank(gap) && gap != "" && Separator(op, rest)
    requires Fits(Command(words), Tokenize(rest))
    ensures Tokenize(QuoteWords(words, gap) + (op + rest))
         == Beside(Command(words), Tokenize(rest), |QuoteWords(words, gap)| + |op|)
  {
    hide Run, QuoteWords, WordsRead, Inside, EndSeg, Beside, Separator, Step;
    var e := WordsRead(START, words, gap);
    ReadWords(words, gap, op + rest, START);
    StartBetween();
    WordsReadInside(words, gap, START, []);
    assert [] + words == words;
    InsideEnds(e, words);
    StepSeparator(op, rest, e);
    var s := EndSeg(e).(i := e.i + |op|);
    SeparatorNotEmpty(op, rest);
    assert (op + rest)[|op|..] == rest;
    RunStep(op + rest, e, s, rest);
    SettledThen(s, rest);
  }

  lemma SeparatorNotEmpty(op: string, rest: string)
    requires Separator(op, rest)
    ensures op != ""
  {
  }

  /* ---- bare words ---------------------------------------------------------------------- */

  /** Characters that are pushed as they stand. */
  predicate Bare(w: string) {
    forall i :: 0 <= i < |w| ==> w[i] !in " \t\r\n'\"\\<>&|;()`"
  }

  predicate Numeral(fd: string) { forall i :: 0 <= i < |fd| ==> '0' <= fd[i] <= '9' }

  /** The state after a bare word: a number as long as all of it is digits. */
  function Pushed(t: Tok, w: string): Tok {
    t.(word := Some(Word(Built(t) + w, (t.word.None? || t.word.value.digits) && Numeral(w))),
       apos := t.apos + |w|, i := t.i + |w|)
  }

  lemma {:induction false} ReadBare(w: string, rest: string, t: Tok)
    requires w != "" && Bare(w) && (t.word.Some? || w[0] != '#')
    requires w[|w| - 1] == '$' ==> rest == "" || rest[0] != '('
    ensures Run(w + rest, t) == Run(rest, Pushed(t, w))
    decreases |w|
  {
    hide Run, Step;
    var r, v := w + rest, w[1..];
    var e := Push(t, w[0]).(i := t.i + 1);
    assert r[1..] == v + rest;
    assert |w| > 1 ==> r[1] == w[1];
    assert |w| == 1 && rest != "" ==> r[1] == rest[0];
    StepBare(r, t);
    RunStep(r, t, e, v + rest);
    PushedMore(t, w);
    if v == "" {
      assert v + rest == rest;
    } else {
      ReadBare(v, rest, e);
    }
  }

  lemma StepBare(r: string, t: Tok)
    requires r != "" && r[0] !in " \t\r\n'\"\\<>&|;()`" && (t.word.Some? || r[0] != '#')
    requires r[0] == '$' ==> |r| == 1 || r[1] != '('
    ensures Step(r, t) == Push(t, r[0]).(i := t.i + 1)
  {
    hide Push;
  }

  lemma PushedMore(t: Tok, w: string)
    requires w != ""
    ensures var e := Push(t, w[0]).(i := t.i + 1);
            Pushed(t, w) == if |w| == 1 then e else Pushed(e, w[1..])
  {
    assert Built(t) + [w[0]] + w[1..] == Built(t) + w;
    assert |w| == 1 ==> Built(t) + [w[0]] == Built(t) + w;
    assert Numeral(w) <==> '0' <= w[0] <= '9' && Numeral(w[1..]) by {
      if '0' <= w[0] <= '9' && Numeral(w[1..]) {
        forall i | 0 <= i < |w| ensures '0' <= w[i] <= '9' {
          if i > 0 { assert w[i] == w[1..][i - 1]; }
        }
      }
    }
  }

  /** A word written bare or in single quotes. */
  function Spelled(w: string, quoted: bool): string { if quoted then QuoteWord(w) else w }

  predicate Spells(w: string, quoted: bool) {
    quoted || (w != "" && Bare(w) && w[0] != '#' && w[|w| - 1] != '$')
  }

  lemma ReadSpelled(w: string, quoted: bool, rest: string, t: Tok) returns (e: Tok)
    requires Spells(w, quoted) && t.word.None?
    ensures Run(Spelled(w, quoted) + rest, t) == Run(rest, e)
    ensures e.word.Some? && e.word.value.text == w
      && e == t.(word := e.word, apos := e.apos, i := t.i + |Spelled(w, quoted)|)
  {
    hide Run, QuoteWord;
    assert "" + w == w;
    if quoted {
      ReadWord(w, rest, t);
      e := AddQuoted(t, w).(i := t.i + |QuoteWord(w)|);
    } else {
      ReadBare(w, rest, t);
      e := Pushed(t, w);
    }
  }

  /** A spelled word starts with none of the operators' characters. */
  lemma SpelledStarts(w: string, quoted: bool, rest: string)
    requires Spells(w, quoted)
    ensures Spelled(w, quoted) != "" && (Spelled(w, quoted) + rest)[0] !in "<>&|("
  {
    var s := Spelled(w, quoted);
    assert quoted ==> s[0] == '\'';
    assert (s + rest)[0] == s[0];
  }

  /* ---- redirects ------------------------------------------------------------------------ */

  /** Operators whose word is written to, and operators whose word is read. */
  predicate OutOp(op: string) { op in [">", ">>", ">|", ">&", "&>", "&>>"] }

  predicate InOp(op: string) { op in ["<", "<&", "<<<"] }

  /** The text after an operator that cannot be part of it. */
  predicate Apart(rest: string) { rest == "" || rest[0] !in "<>&|(" }

  /** A redirect operator drops a bare number before it, ends any other word, and
      waits for its own. */
  lemma StepOperator(op: string, rest: string, t: Tok)
    requires (OutOp(op) || InOp(op)) && op != "&>>" && Apart(rest)
    ensures Step(op + rest, t) == OpBegin(t).(pend := if OutOp(op) then POut else PIn, i := t.i + |op|)
  {
    hide OpBegin, EndSeg, EndWord, Newline, SingleQuote, DoubleQuote, Span;
    var r := op + rest;
    assert rest != "" ==> r[|op|] == rest[0];
    assert r[0] == op[0];
    assert |op| >= 2 ==> r[1] == op[1];
    assert |op| == 3 ==> r[2] == op[2];
    OpBeginAt(t);
  }

  lemma OpBeginAt(t: Tok)
    ensures OpBegin(t).i == t.i && OpBegin(t).word.None? && (t.word.None? ==> OpBegin(t) == t)
  {
  }

  /** `&>>` is two operators, `&>` and `>`, with the effect of one. */
  lemma StepBoth(rest: string, t: Tok)
    ensures Step("&>" + (">" + rest), t) == OpBegin(t).(pend := POut, i := t.i + 2)
  {
    hide OpBegin, EndSeg, EndWord, Newline, SingleQuote, DoubleQuote, Span;
    var r := "&>" + (">" + rest);
    assert r[0] == '&' && r[1] == '>' && r[2] == '>';
    OpBeginAt(t);
  }

  lemma ReadRedirect(op: string, rest: string, t: Tok)
    requires (OutOp(op) || InOp(op)) && Apart(rest)
    ensures Run(op + rest, t) == Run(rest, OpBegin(t).(pend := if OutOp(op) then POut else PIn, i := t.i + |op|))
  {
    hide Run, Step, OpBegin, Apart;
    OpBeginAt(t);
    var e := OpBegin(t).(pend := if OutOp(op) then POut else PIn, i := t.i + |op|);
    OperatorNotEmpty(op);
    if op == "&>>" {
      var tail := ">" + rest;
      var r := "&>" + tail;
      assert op + rest == r && r[2..] == tail && tail[1..] == rest;
      var m := OpBegin(t).(pend := POut, i := t.i + 2);
      StepBoth(rest, t);
      RunStep(r, t, m, tail);
      OpBeginAt(m);
      StepOperator(">", rest, m);
      RunStep(tail, m, e, rest);
    } else {
      StepOperator(op, rest, t);
      assert (op + rest)[|op|..] == rest;
      RunStep(op + rest, t, e, rest);
    }
  }

  /** The state after the operator: words done, a redirect word awaited. */
  predicate Awaiting(t: Tok, words: seq<string>, kind: Pend) {
    t.word.None? && t.pend == kind && t.hd == [] && t.cw0 == 0 && t.cr0 == 0 && t.out == Tokens(words, [], [], [])
  }

  /** Up to the redirect's word. */
  lemma ReadOperator(words: seq<string>, gap: string, fd: string, op: string, rest: string)
    returns (e: Tok)
    requires 1 <= |words| <= MAX_WORDS && Blank(gap) && gap != "" && Numeral(fd) && (OutOp(op) || InOp(op))
      && Apart(rest)
    ensures Run(QuoteWords(words, gap) + (gap + (fd + (op + rest))), START) == Run(rest, e)
    ensures Awaiting(e, words, if OutOp(op) then POut else PIn)
  {
    hide Run, QuoteWords, WordsRead, Inside, EndSeg, EndWord, Step, OutOp, InOp, Apart;
    var after := fd + (op + rest);
    var a := WordsRead(START, words, gap);
    ReadWords(words, gap, gap + after, START);
    StartBetween();
    WordsReadInside(words, gap, START, []);
    assert [] + words == words;
    InsideEnds(a, words);
    ReadBlanks(gap, after, a);
    var b := EndWord(a).(i := a.i + |gap|);
    ReadDescriptor(fd, op + rest, b);
    var c := if fd == "" then b else Pushed(b, fd);
    ReadRedirect(op, rest, c);
    e := OpBegin(c).(pend := if OutOp(op) then POut else PIn, i := c.i + |op|);
  }

  lemma ReadDescriptor(fd: string, rest: string, t: Tok)
    requires Numeral(fd) && t.word.None?
    ensures fd == "" ==> fd + rest == rest
    ensures fd != "" ==> Run(fd + rest, t) == Run(rest, Pushed(t, fd))
  {
    hide Run;
    if fd != "" { ReadBare(fd, rest, t); }
  }

  lemma OperatorNotEmpty(op: string)
    requires OutOp(op) || InOp(op)
    ensures op != ""
  {
  }

  /** For all words, all targets bare or quoted, all redirect operators, with or
      without a descriptor number and blanks before the target: an output target
      is recorded as the redirect of the command's segment, an input source is
      dropped, and neither is a word. */
  lemma RedirectRecorded(words: seq<string>, gap: string, fd: string, op: string, space: string, target: string,
                         quoted: bool)
    requires 1 <= |words| <= MAX_WORDS && Blank(gap) && gap != "" && Numeral(fd) && (OutOp(op) || InOp(op))
    requires Blank(space) && Spells(target, quoted)
    ensures Tokenize(QuoteWords(words, gap) + (gap + (fd + (op + (space + Spelled(target, quoted))))))
         == Command(words).(redirs := if OutOp(op) then [Redir(0, target)] else [])
  {
    hide Run, QuoteWords, Spelled, Spells, Step, OutOp, InOp, Numeral, Apart, Blank, EndSeg;
    var t := Spelled(target, quoted);
    SpelledStarts(target, quoted, "");
    assert t + "" == t;
    BlankApart(space, t);
    var e := ReadOperator(words, gap, fd, op, space + t);
    ReadSpace(space, t, e);
    var f := e.(i := e.i + |space|);
    var g := ReadSpelled(target, quoted, "", f);
    RunEmpty(g);
    RedirectEnds(g, words, OutOp(op));
  }

  lemma RedirectEnds(t: Tok, words: seq<string>, out: bool)
    requires words != [] && t.word.Some? && Awaiting(t.(word := None), words, if out then POut else PIn)
    ensures EndSeg(t).out == Command(words).(redirs := if out then [Redir(0, t.word.value.text)] else [])
  {
  }

  lemma BlankApart(space: string, t: string)
    requires Blank(space) && t != "" && t[0] !in "<>&|("
    ensures Apart(space + t)
  {
    assert (space + t)[0] == if space == "" then t[0] else space[0];
  }

  /** Blanks between an operator and its word change nothing. */
  lemma ReadSpace(space: string, rest: string, t: Tok)
    requires Blank(space) && t.word.None?
    ensures Run(space + rest, t) == Run(rest, t.(i := t.i + |space|))
  {
    hide Run;
    if space == "" {
      assert space + rest == rest;
    } else {
      ReadBlanks(space, rest, t);
      EndWordNothing(t);
    }
  }

  /* ---- heredocs -------------------------------------------------------------------------- */

  /** Whole lines, none of them the delimiter. */
  predicate BodyLines(lines: seq<string>, d: string) {
    forall i :: 0 <= i < |lines| ==> '\n' !in lines[i] && !IsDelim(lines[i], d)
  }

  function Joined(lines: seq<string>): string {
    if lines == [] then "" else lines[0] + ("\n" + Joined(lines[1..]))
  }

  function Tabs(n: nat): (s: string)
    ensures |s| == n
  {
    if n == 0 then "" else "\t" + Tabs(n - 1)
  }

  /** A line ends the heredoc exactly if it is tabs and then the delimiter; one that
      itself starts with a tab ends at no line. */
  lemma DelimIff(line: string, d: string)
    ensures IsDelim(line, d) <==> !("\t" <= d) && exists n: nat :: line == Tabs(n) + d
  {
    TabsSkipped(line);
    if IsDelim(line, d) {
      assert line == Tabs(SkipTabs(line)) + d;
    }
    if n: nat :| line == Tabs(n) + d && !("\t" <= d) {
      SkipsTabs(n, d);
      assert line[n..] == d;
    }
  }

  lemma {:induction false} TabsSkipped(line: string)
    ensures var n := SkipTabs(line); line == Tabs(n) + line[n..] && !("\t" <= line[n..])
    decreases |line|
  {
    if line != "" && line[0] == '\t' {
      TabsSkipped(line[1..]);
      assert line == "\t" + line[1..];
    } else if line != "" {
      assert line[..1] == [line[0]];
    }
  }

  lemma {:induction false} SkipsTabs(n: nat, d: string)
    requires !("\t" <= d)
    ensures SkipTabs(Tabs(n) + d) == n
  {
    if n > 0 {
      assert (Tabs(n) + d)[0] == '\t' && (Tabs(n) + d)[1..] == Tabs(n - 1) + d;
      SkipsTabs(n - 1, d);
    } else {
      assert Tabs(0) + d == d;
      assert d != "" ==> d[..1] == [d[0]];
    }
  }

  /** The body is what stands before the first line that is the delimiter, its
      leading tabs aside. */
  lemma {:induction false} ReadBody(lines: seq<string>, last: string, d: string, rest: string)
    requires BodyLines(lines, d) && '\n' !in last && IsDelim(last, d)
    ensures HeredocBody(Joined(lines) + (last + ("\n" + rest)), d)
         == Body(|Joined(lines)|, |Joined(lines)| + |last| + 1, Terminated)
    decreases |lines|
  {
    hide IsDelim, Span;
    var tail := last + ("\n" + rest);
    if lines == [] {
      assert Joined(lines) + tail == tail;
      LineAt(last, rest);
    } else {
      var l, j := lines[0], Joined(lines[1..]);
      var r := l + ("\n" + (j + tail));
      Assoc(l, "\n" + j, tail);
      Assoc("\n", j, tail);
      assert Joined(lines) + tail == r;
      LineAt(l, j + tail);
      ReadBody(lines[1..], last, d, rest);
    }
  }

  lemma LineAt(l: string, rest: string)
    requires '\n' !in l
    ensures var r := l + ("\n" + rest);
            Span(r, '\n') == |l| && r[..|l|] == l && r[|l| + 1..] == rest
  {
    var r := l + ("\n" + rest);
    assert r[..|l|] == l;
    SpanFound(r, '\n', |l|);
  }

  lemma StepHeredoc(op: string, rest: string, t: Tok)
    requires op in ["<<", "<<-"] && rest != "" && rest[0] != '<' && (op == "<<" ==> rest[0] != '-')
    ensures Step(op + rest, t) == OpBegin(t).(pend := PHeredoc, i := t.i + |op|)
  {
    hide OpBegin, EndSeg, EndWord, Newline, SingleQuote, DoubleQuote, Span;
    var r := op + rest;
    assert r[0] == '<' && r[1] == '<' && r[|op|] == rest[0];
    assert op == "<<-" ==> r[2] == '-';
    OpBeginAt(t);
  }

  lemma NoBodies(r: string, p: nat, segs: seq<Seg>)
    ensures Bodies(r, p, [], segs) == (0, segs)
  {
  }

  lemma BodiesStep(r: string, p: nat, h: Heredoc, hd: seq<Heredoc>, segs: seq<Seg>)
    ensures var b := HeredocBody(r, h.delim);
            var (n, done) := Bodies(r[b.next..], p + b.next, hd, Attach(segs, h.seg, Sub(p, b.len)));
            Bodies(r, p, [h] + hd, segs) == (b.next + n, done)
  {
    hide HeredocBody, Attach;
    assert ([h] + hd)[1..] == hd;
  }

  lemma LastLine(j: string, last: string, x: string)
    ensures var r := j + (last + ("\n" + x)); |r| == |j| + |last| + 1 + |x| && r[|j| + |last| + 1..] == x
  {
  }

  lemma StepNewline(r: string, t: Tok)
    requires r != "" && r[0] == '\n'
    ensures Step(r, t) == Newline(r, t)
  {
    hide Newline;
  }

  /* ---- comments ----------------------------------------------------------------------------- */

  /** A comment after blanks is not read. */
  lemma CommentIgnored(words: seq<string>, gap: string, comment: string)
    requires 1 <= |words| <= MAX_WORDS && Blank(gap) && gap != "" && '\n' !in comment
    ensures Tokenize(QuoteWords(words, gap) + (gap + ("#" + comment))) == Command(words)
  {
    hide Run, QuoteWords, WordsRead, Inside, Step, Span;
    var r := "#" + comment;
    var a := WordsRead(START, words, gap);
    ReadWords(words, gap, gap + r, START);
    StartBetween();
    WordsReadInside(words, gap, START, []);
    assert [] + words == words;
    InsideEnds(a, words);
    ReadBlanks(gap, r, a);
    var b := EndWord(a).(i := a.i + |gap|);
    assert r + "" == r;
    StepComment(r, "", b);
    var e := b.(i := b.i + |r|);
    assert r[|r|..] == "";
    RunStep(r, b, e, "");
    RunEmpty(e);
  }

  lemma StepComment(c: string, rest: string, t: Tok)
    requires c != "" && c[0] == '#' && t.word.None? && '\n' !in c && (rest == "" || rest[0] == '\n')
    ensures Step(c + rest, t) == t.(i := t.i + |c|)
  {
    var r := c + rest;
    assert r[0] == '#' && r[..|c|] == c;
    SpanFound(r, '\n', |c|);
  }

  /* ---- backslashes ---------------------------------------------------------------------------- */

  /** Every character behind a backslash. */
  function Backslashed(w: string): string {
    if w == "" then "" else ['\\', w[0]] + Backslashed(w[1..])
  }

  lemma {:induction false} ReadBackslashed(w: string, rest: string, t: Tok)
    requires w != "" && '\n' !in w
    ensures Run(Backslashed(w) + rest, t) == Run(rest, AddQuoted(t, w).(i := t.i + 2 * |w|))
    ensures |Backslashed(w)| == 2 * |w|
    decreases |w|
  {
    hide Run, Step, AddQuoted;
    var v := w[1..];
    var tail := Backslashed(v) + rest;
    var r := ['\\', w[0]] + tail;
    assert Backslashed(w) + rest == r;
    var e := AddQuoted(t, [w[0]]).(i := t.i + 2);
    StepEscape(r, t);
    assert r[2..] == tail;
    RunStep(r, t, e, tail);
    if v == "" {
      assert tail == rest && [w[0]] == w;
    } else {
      ReadBackslashed(v, rest, e);
      AddQuotedTwice(t, [w[0]], v, t.i + 2);
      assert [w[0]] + v == w;
    }
  }

  /** For every word without a newline: all its characters escaped it is that word. */
  lemma BackslashedWord(w: string)
    requires w != "" && '\n' !in w
    ensures Tokenize(Backslashed(w)) == Command([w])
  {
    hide Run, Backslashed;
    assert Backslashed(w) + "" == Backslashed(w);
    ReadBackslashed(w, "", START);
    RunEmpty(AddQuoted(START, w).(i := 2 * |w|));
    assert "" + w == w && [] + [w] == [w];
  }

  lemma StepEscape(r: string, t: Tok)
    requires |r| >= 2 && r[0] == '\\' && r[1] != '\n'
    ensures Step(r, t) == AddQuoted(t, [r[1]]).(i := t.i + 2)
  {
    hide AddQuoted;
  }

  /* ---- double quotes -------------------------------------------------------------------------- */

  /** The four special characters behind a backslash. */
  function Escape(w: string): string {
    if w == "" then "" else (if w[0] in "\"\\$`" then ['\\', w[0]] else [w[0]]) + Escape(w[1..])
  }

  lemma {:induction false} ReadEscaped(w: string, rest: string)
    ensures Quoted(Escape(w) + ("\"" + rest)) == Dq(|Escape(w)| + 1, w, [], true)
    decreases |w|
  {
    hide Subst;
    var tail := "\"" + rest;
    if w == "" {
      assert Escape(w) + tail == tail;
    } else {
      var head := if w[0] in "\"\\$`" then ['\\', w[0]] else [w[0]];
      var more := Escape(w[1..]) + tail;
      var r := head + more;
      Assoc(head, Escape(w[1..]), tail);
      PieceOf(w[0], head, more);
      assert r[|head|..] == more;
      ReadEscaped(w[1..], rest);
      assert Shifted([], |head|) == [] && [w[0]] + w[1..] == w;
    }
  }

  lemma PieceOf(c: char, head: string, more: string)
    requires head == if c in "\"\\$`" then ['\\', c] else [c]
    ensures (head + more)[0] != '"' && QuotedPiece(head + more) == Piece(|head|, [c], [])
  {
    hide SkipParen, SkipTick;
  }

  /** For every word: double-quoted with its special characters escaped it is that
      word, and nothing in it is taken for a substitution. */
  lemma DoubleQuotedWord(w: string)
    ensures Tokenize("\"" + (Escape(w) + "\"")) == Command([w])
  {
    hide Run, Quoted, Escape, Step;
    var body := Escape(w) + "\"";
    assert body == Escape(w) + ("\"" + "");
    ReadEscaped(w, "");
    var r := "\"" + body;
    var e := AddQuoted(START, w).(i := |r|);
    StepDouble(r, w);
    assert r[|r|..] == "";
    RunStep(r, START, e, "");
    RunEmpty(e);
    assert "" + w == w;
    assert [] + [w] == [w];
  }

  lemma StepDouble(r: string, w: string)
    requires r != "" && r[0] == '"' && Quoted(r[1..]) == Dq(|r| - 1, w, [], true)
    ensures Step(r, START) == AddQuoted(START, w).(i := |r|)
  {
    hide Quoted, AddQuoted;
    assert Shifted([], 1) == [] && AddSubs([], []) == [];
    AddQuotedOut(START, w);
  }

  lemma AddQuotedOut(t: Tok, w: string)
    ensures AddQuoted(t, w).out == t.out
  {
  }

  /* ---- substitutions --------------------------------------------------------------------------- */

  /** A backslash takes the next character with it, and no other backtick. */
  predicate Ticked(c: string) {
    if c == "" then true
    else if c[0] == '\\' then |c| > 1 && Ticked(c[2..])
    else c[0] != '`' && Ticked(c[1..])
  }

  /** The scanner stops at the backtick after c exactly for such texts. */
  lemma {:induction false} SkipTicked(c: string, rest: string)
    ensures SkipTick(c + ("`" + rest)) == |c| <==> Ticked(c)
    decreases |c|
  {
    var r := c + ("`" + rest);
    if c == "" {
      assert r == "`" + rest;
    } else if c[0] == '\\' {
      assert |c| > 1 ==> r[2..] == c[2..] + ("`" + rest);
      if |c| > 1 { SkipTicked(c[2..], rest); }
    } else {
      assert r[1..] == c[1..] + ("`" + rest);
      SkipTicked(c[1..], rest);
    }
  }

  /** For every text that a backtick can close: between backticks inside double
      quotes it is data of the word and recorded for scanning, exactly the text
      between the marks. */
  lemma BackticksRecorded(c: string)
    requires c != "" && Ticked(c)
    ensures Tokenize("\"`" + (c + "`\"")) == Command(["`" + c + "`"]).(subs := [Sub(2, |c|)])
  {
    hide Run, Quoted, SkipTick, Step, Ticked;
    SkipTicked(c, "\"");
    var r := "\"`" + (c + "`\"");
    var s := r[1..];
    assert s == "`" + (c + ("`" + "\"")) && s[1..] == c + ("`" + "\"");
    assert r == "\"" + ("`" + c + "`") + "\"";
    OneSubst(r, "`" + c + "`", c, 1);
  }

  lemma OneSubst(r: string, word: string, c: string, from: nat)
    requires r == "\"" + word + "\"" && c != "" && 1 <= from <= 2
    requires Subst(r[1..]) == Some((|word|, from, from + |c|)) && |word| >= 1 && word[0] != '"' && word[0] != '\\'
    ensures Tokenize(r) == Command([word]).(subs := [Sub(1 + from, |c|)])
  {
    hide Run, Subst, Step;
    var s := r[1..];
    assert s == word + "\"" && s[..|word|] == word && s[|word|..] == "\"";
    var p := QuotedPiece(s);
    assert p == Piece(|word|, word, [Sub(from, |c|)]);
    ClosingQuote();
    assert Quoted(s) == Dq(|word| + 1, word, [Sub(from, |c|)], true) by {
      assert word + "" == word && [Sub(from, |c|)] + Shifted([], |word|) == [Sub(from, |c|)];
    }
    StepSubst(r, word, Sub(from, |c|));
    var e := AddQuoted(START, word).(i := |r|, out := NOTHING.(subs := [Sub(1 + from, |c|)]));
    assert r[|r|..] == "";
    RunStep(r, START, e, "");
    RunEmpty(e);
    assert "" + word == word && [] + [word] == [word];
  }

  lemma ClosingQuote()
    ensures Quoted("\"") == Dq(1, "", [], true)
  {
  }

  lemma StepSubst(r: string, word: string, sub: Sub)
    requires r != "" && r[0] == '"' && Quoted(r[1..]) == Dq(|r| - 1, word, [sub], true)
    ensures Step(r, START) == AddQuoted(START, word).(i := |r|, out := NOTHING.(subs := [Sub(1 + sub.off, sub.len)]))
  {
    hide Quoted, AddQuoted;
    assert Shifted([sub], 1) == [Sub(sub.off + 1, sub.len)]
      && AddSubs([], [Sub(sub.off + 1, sub.len)]) == [Sub(sub.off + 1, sub.len)];
    AddQuotedOut(START, word);
  }
}
