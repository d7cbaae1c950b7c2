/** Tokenizing undoes single-quoting (section 2.2.2 of the POSIX Shell Command
    Language). */
module ShellQuoting {
  import opened Wrappers
  import opened Text
  import opened ShellTok

  /** A word's characters inside single quotes: a quote closes, is written
      escaped, and opens again. */
  function Escaped(w: string): string {
    if w == "" then "" else (if w[0] == '\'' then "'\\''" else [w[0]]) + Escaped(w[1..])
  }

  function QuoteWord(w: string): string { "'" + Escaped(w) + "'" }

  /** What separates words: spaces, tabs and carriage returns. */
  predicate Blank(g: string) { forall i :: 0 <= i < |g| ==> g[i] in " \t\r" }

  /** The words, quoted, with the gap between them. */
  function QuoteWords(words: seq<string>, gap: string): string
    requires words != []
  {
    if |words| == 1 then QuoteWord(words[0]) else QuoteWord(words[0]) + (gap + QuoteWords(words[1..], gap))
  }

  lemma {:induction false} EscapedPlain(p: string, v: string)
    requires '\'' !in p
    ensures Escaped(p + v) == p + Escaped(v)
    decreases |p|
  {
    if p == "" {
      assert p + v == v;
    } else {
      assert (p + v)[1..] == p[1..] + v;
      EscapedPlain(p[1..], v);
    }
  }

  /** Steps that only read text: what is left and the state. */
  lemma RunStep(r: string, t: Tok, e: Tok, rest: string)
    requires r != "" && e == Step(r, t) && |rest| == |r| - (e.i - t.i) && r[|r| - |rest|..] == rest
    ensures Run(r, t) == Run(rest, e)
  {
    hide Step;
  }

  /** 'p' with no quote inside is one step. */
  lemma ReadPlain(r: string, p: string, rest: string, t: Tok)
    requires '\'' !in p && r == "'" + p + "'" + rest
    ensures Run(r, t) == Run(rest, AddQuoted(t, p).(i := t.i + |p| + 2))
  {
    hide Run, AddQuoted;
    assert r[1..] == p + ("'" + rest);
    SpanAt(p, rest);
    assert r[1..1 + |p|] == p;
    RunStep(r, t, AddQuoted(t, p).(i := t.i + |p| + 2), rest);
  }

  lemma {:induction false} SpanAt(p: string, rest: string)
    requires '\'' !in p
    ensures Span(p + ("'" + rest), '\'') == |p|
    decreases |p|
  {
    var r := p + ("'" + rest);
    if p == "" {
      assert r == "'" + rest;
    } else {
      assert r[1..] == p[1..] + ("'" + rest);
      SpanAt(p[1..], rest);
    }
  }

  /** An escaped quote is one step. */
  lemma ReadEscape(r: string, rest: string, t: Tok)
    requires r == "\\'" + rest
    ensures Run(r, t) == Run(rest, AddQuoted(t, "'").(i := t.i + 2))
  {
    hide Run, AddQuoted;
    RunStep(r, t, AddQuoted(t, "'").(i := t.i + 2), rest);
  }

  /** 'p'\' is two steps. */
  lemma ReadUpToQuote(r: string, mid: string, p: string, rest: string, t: Tok)
    requires '\'' !in p && r == "'" + p + "'" + mid && mid == "\\'" + rest
    ensures Run(r, t) == Run(rest, AddQuoted(t, p + "'").(i := t.i + |p| + 4))
  {
    hide Run, AddQuoted;
    ReadPlain(r, p, mid, t);
    var e := AddQuoted(t, p).(i := t.i + |p| + 2);
    ReadEscape(mid, rest, e);
    AddQuotedTwice(t, p, "'", t.i + |p| + 2);
  }

  /** A quoted word is read back whole. */
  lemma {:induction false} ReadWord(w: string, rest: string, t: Tok)
    ensures Run(QuoteWord(w) + rest, t) == Run(rest, AddQuoted(t, w).(i := t.i + |QuoteWord(w)|))
    decreases |w|
  {
    hide Run, Escaped, Span, AddQuoted;
    var q := Span(w, '\'');
    var p, v := w[..q], w[q..];
    assert w == p + v;
    EscapedPlain(p, v);
    EscapedCases(v);
    if q == |w| {
      assert p == w && Escaped(w) == w;
      ReadPlain(QuoteWord(w) + rest, p, rest, t);
    } else {
      var u := v[1..];
      var tail := QuoteWord(u) + rest;
      var mid := "\\'" + tail;
      assert QuoteWord(w) + rest == "'" + p + "'" + mid;
      ReadUpToQuote(QuoteWord(w) + rest, mid, p, tail, t);
      var e := AddQuoted(t, p + "'").(i := t.i + |p| + 4);
      ReadWord(u, rest, e);
      assert w == p + "'" + u;
      AddQuotedTwice(t, p + "'", u, t.i + |p| + 4);
    }
  }

  lemma AddQuotedTwice(t: Tok, a: string, b: string, i: nat)
    ensures AddQuoted(AddQuoted(t, a).(i := i), b) == AddQuoted(t, a + b).(i := i)
  {
    assert Built(t) + a + b == Built(t) + (a + b);
  }

  lemma EscapedCases(v: string)
    ensures v == "" ==> Escaped(v) == ""
    ensures v != "" && v[0] == '\'' ==> Escaped(v) == "'\\''" + Escaped(v[1..])
  {
  }

  /** Blanks end the word. */
  lemma {:induction false} ReadBlanks(gap: string, rest: string, t: Tok)
    requires Blank(gap) && gap != ""
    ensures Run(gap + rest, t) == Run(rest, EndWord(t).(i := t.i + |gap|))
    decreases |gap|
  {
    hide Run, EndWord;
    var r, e := gap + rest, EndWord(t).(i := t.i + 1);
    StepBlank(r, t);
    assert r[1..] == gap[1..] + rest;
    RunStep(r, t, e, gap[1..] + rest);
    EndWordTwice(t);
    if |gap| > 1 {
      ReadBlanks(gap[1..], rest, e);
      EndWordNothing(e);
    } else {
      assert gap[1..] + rest == rest;
    }
  }

  lemma StepBlank(r: string, t: Tok)
    requires r != "" && r[0] in " \t\r"
    ensures Step(r, t) == EndWord(t).(i := t.i + 1) && EndWord(t).i == t.i
  {
    hide Route;
    EndWordTwice(t);
  }

  lemma EndWordTwice(t: Tok)
    ensures EndWord(t).word.None? && EndWord(t).i == t.i
  {
  }

  lemma EndWordNothing(t: Tok)
    requires t.word.None?
    ensures EndWord(t) == t
  {
  }

  /** The state after reading the quoted words: the last one is still open. */
  function WordsRead(t: Tok, words: seq<string>, gap: string): Tok
    requires words != []
    decreases |words|
  {
    var e := AddQuoted(t, words[0]).(i := t.i + |QuoteWord(words[0])|);
    if |words| == 1 then e else WordsRead(EndWord(e).(i := e.i + |gap|), words[1..], gap)
  }

  lemma {:induction false} ReadWords(words: seq<string>, gap: string, rest: string, t: Tok)
    requires words != [] && Blank(gap) && gap != ""
    ensures Run(QuoteWords(words, gap) + rest, t) == Run(rest, WordsRead(t, words, gap))
    decreases |words|
  {
    hide Run, QuoteWord, AddQuoted, EndWord;
    var w := words[0];
    if |words| == 1 {
      ReadWord(w, rest, t);
    } else {
      var q := QuoteWords(words[1..], gap);
      var tail := q + rest;
      Assoc(QuoteWord(w), gap + q, rest);
      Assoc(gap, q, rest);
      ReadWord(w, gap + tail, t);
      var e := AddQuoted(t, w).(i := t.i + |QuoteWord(w)|);
      ReadBlanks(gap, tail, e);
      ReadWords(words[1..], gap, rest, EndWord(e).(i := e.i + |gap|));
    }
  }

  /** A state between words of the first command: these words read, nothing else. */
  predicate Between(t: Tok, done: seq<string>) {
    t.word.None? && t.pend == PNone && t.hd == [] && t.cw0 == 0 && t.cr0 == 0 && t.out == Tokens(done, [], [], [])
  }

  /** A state inside the last of these words. */
  predicate Inside(t: Tok, words: seq<string>) {
    && words != []
    && t.word == Some(Word(words[|words| - 1], false)) && t.pend == PNone && t.hd == [] && t.cw0 == 0 && t.cr0 == 0
    && t.out == Tokens(words[..|words| - 1], [], [], [])
  }

  /** One plain command. */
  function Command(words: seq<string>): Tokens {
    Tokens(words, [], [Seg(0, |words|, None)], [])
  }

  lemma InsideEnds(t: Tok, words: seq<string>)
    requires Inside(t, words) && |words| <= MAX_WORDS
    ensures EndSeg(t).out == Command(words)
    ensures var e := EndSeg(t);
            e.word.None? && e.pend == PNone && e.hd == [] && e.i == t.i && e.cw0 == |words| && e.cr0 == 0
    ensures Between(EndWord(t), words) && EndWord(t).i == t.i
  {
    assert words == words[..|words| - 1] + [words[|words| - 1]];
  }

  lemma OneWordInside(t: Tok, done: seq<string>, w: string, i: nat)
    requires Between(t, done)
    ensures Inside(AddQuoted(t, w).(i := i), done + [w])
  {
    assert "" + w == w && (done + [w])[..|done|] == done;
  }

  lemma {:induction false} WordsReadInside(words: seq<string>, gap: string, t: Tok, done: seq<string>)
    requires words != [] && |done| + |words| <= MAX_WORDS && Between(t, done)
    ensures Inside(WordsRead(t, words, gap), done + words)
    ensures WordsRead(t, words, gap).i == t.i + |QuoteWords(words, gap)|
    decreases |words|
  {
    hide QuoteWord, AddQuoted, EndWord, Inside;
    var w := words[0];
    var e := AddQuoted(t, w).(i := t.i + |QuoteWord(w)|);
    OneWordInside(t, done, w, t.i + |QuoteWord(w)|);
    if |words| == 1 {
      assert words == [w];
    } else {
      InsideEnds(e, done + [w]);
      var s := EndWord(e).(i := e.i + |gap|);
      WordsReadInside(words[1..], gap, s, done + [w]);
      assert done + [w] + words[1..] == done + words;
    }
  }

  lemma StartBetween()
    ensures Between(START, [])
  {
  }

  lemma RunEmpty(t: Tok)
    ensures Run("", t) == EndSeg(t)
  {
  }

  /** For any 1 to 4096 words: single-quoted and joined by blanks they tokenize to
      one segment holding exactly those words, no redirects, no substitutions. */
  lemma TokenizeUndoesQuoting(words: seq<string>, gap: string)
    requires 1 <= |words| <= MAX_WORDS && Blank(gap) && gap != ""
    ensures Tokenize(QuoteWords(words, gap)) == Command(words)
  {
    hide Run, QuoteWords, WordsRead, Inside, EndSeg;
    ReadWords(words, gap, "", START);
    assert QuoteWords(words, gap) + "" == QuoteWords(words, gap);
    StartBetween();
    WordsReadInside(words, gap, START, []);
    assert [] + words == words;
    var e := WordsRead(START, words, gap);
    RunEmpty(e);
    InsideEnds(e, words);
  }
}
