/** The tokenizer as it runs: one pass that writes words, each ended by a NUL,
    into an arena of 2 * len + 16 characters. Every step is the step of the
    machine, and no write leaves the arena. */
module ShellLexer {
  import opened Wrappers
  import opened Text
  import opened ShellScan
  import M = ShellTok
  import opened ShellBounds

  /** The word w and its NUL stand at offset off. */
  ghost predicate Stored(a: seq<char>, off: nat, w: string) {
    off + |w| < |a| && a[off..off + |w|] == w && a[off + |w|] == '\0'
  }

  lemma StoredIntro(a: seq<char>, off: nat, w: string)
    requires off + |w| + 1 == |a| && a[off..off + |w|] == w && a[off + |w|] == '\0'
    ensures Stored(a, off, w)
  {
  }

  lemma StoredKept(a: seq<char>, b: seq<char>, off: nat, w: string)
    requires Stored(a, off, w) && a <= b
    ensures Stored(b, off, w)
  {
    assert b[off..off + |w|] == a[off..off + |w|];
  }

  lemma StoredText(a: seq<char>, off: nat, w: string)
    requires Stored(a, off, w) && off + |w| + 1 == |a|
    ensures a[off..|a| - 1] == w
  {
  }

  /** Offsets into the arena for exactly these words and redirects. */
  ghost predicate Filled(a: seq<char>, words: seq<nat>, redirs: seq<(nat, nat)>, w: seq<string>, r: seq<M.Redir>) {
    && |words| == |w| && |redirs| == |r|
    && (forall k :: 0 <= k < |words| ==> Stored(a, words[k], w[k]))
    && (forall k :: 0 <= k < |redirs| ==> redirs[k].0 == r[k].seg && Stored(a, redirs[k].1, r[k].word))
  }

  /** A word stored behind the others can be added as either. */
  lemma FilledMore(base: seq<char>, a: seq<char>, words: seq<nat>, redirs: seq<(nat, nat)>, w: seq<string>,
                   r: seq<M.Redir>,
                   off: nat, word: string, seg: nat)
    requires Filled(base, words, redirs, w, r) && base <= a && Stored(a, off, word)
    ensures Filled(a, words, redirs, w, r)
    ensures Filled(a, words + [off], redirs, w + [word], r)
    ensures Filled(a, words, redirs + [(seg, off)], w, r + [M.Redir(seg, word)])
  {
    hide Stored;
    forall k | 0 <= k < |words| ensures Stored(a, words[k], w[k]) { StoredKept(base, a, words[k], w[k]); }
    forall k | 0 <= k < |redirs| ensures Stored(a, redirs[k].1, r[k].word) {
      StoredKept(base, a, redirs[k].1, r[k].word);
    }
  }

  lemma EndWordKeeps(t: M.Tok)
    ensures var e := M.EndWord(t);
            e.cw0 == t.cw0 && e.cr0 == t.cr0 && e.i == t.i && e.word.None? && |e.out.words| >= |t.out.words|
  {
  }

  lemma Pushed(a: seq<char>, b: seq<char>, w: nat, c: char)
    requires w <= |a| && b == a + [c]
    ensures b[..w] == a[..w] && b[w..] == a[w..] + [c]
  {
  }

  class Lexer {
    const s: string
    const arena: array<char>
    var i: nat
    var apos: nat
    var inWord: bool
    var digits: bool
    var wstart: nat
    var pend: M.Pend
    var cw0: nat
    var cr0: nat
    var hd: seq<M.Heredoc>
    var words: seq<nat>
    var redirs: seq<(nat, nat)>
    var segs: seq<M.Seg>
    var subs: seq<Sub>
    ghost var st: M.Tok

    ghost predicate Valid()
      reads this, arena
    {
      && arena.Length == 2 * |s| + 16 && apos <= arena.Length
      && i == st.i && apos == st.apos && pend == st.pend && cw0 == st.cw0 && cr0 == st.cr0 && hd == st.hd
      && segs == st.out.segs && subs == st.out.subs
      && inWord == st.word.Some?
      && (inWord ==> wstart <= apos && arena[wstart..apos] == st.word.value.text && digits == st.word.value.digits)
      && Filled(arena[..if inWord then wstart else apos], words, redirs, st.out.words, st.out.redirs)
      && |words| == |st.out.words| && |redirs| == |st.out.redirs|
    }

    constructor (s: string)
      ensures Valid() && st == M.START && this.s == s && fresh(arena)
    {
      this.s := s;
      arena := new char[2 * |s| + 16];
      i, apos, inWord, digits, wstart := 0, 0, false, false, 0;
      pend, cw0, cr0, hd, words, redirs, segs, subs := M.PNone, 0, 0, [], [], [], [], [];
      st := M.START;
    }

    /** One more character of the arena. */
    method Store(c: char)
      requires apos < arena.Length
      modifies this`apos, arena
      ensures apos == old(apos) + 1 && arena[..apos] == old(arena[..apos]) + [c]
    {
      arena[apos] := c;
      apos := apos + 1;
    }

    /** tk_push */
    method Push(c: char)
      requires Valid() && apos < arena.Length
      modifies this, arena
      ensures Valid() && st == M.Push(old(st), c)
    {
      hide Filled;
      if !inWord {
        inWord, digits, wstart := true, true, apos;
      }
      if !('0' <= c <= '9') { digits := false; }
      ghost var a := arena[..apos];
      Slices(arena, wstart, apos);
      Store(c);
      Pushed(a, arena[..apos], wstart, c);
      Slices(arena, wstart, apos);
      st := M.Push(st, c);
    }

    lemma Slices(b: array<char>, w: nat, n: nat)
      requires w <= n <= b.Length
      ensures b[..n][..w] == b[..w] && b[..n][w..] == b[w..n]
    {
    }

    /** tk_mark_quoted */
    method MarkQuoted()
      requires Valid()
      modifies this
      ensures Valid() && st == M.AddQuoted(old(st), "")
    {
      if !inWord {
        inWord, wstart := true, apos;
      }
      digits := false;
      st := M.AddQuoted(st, "");
    }

    /** tk_route_word, for the word stored at off. */
    method RouteWord(off: nat, ghost w: string)
      requires Valid() && !inWord && Stored(arena[..apos], off, w) && off + |w| + 1 == apos
      modifies this`words, this`redirs, this`hd, this`pend, this`st
      ensures Valid() && st == M.Route(old(st), w)
    {
      hide Filled, Stored;
      FilledMore(arena[..apos], arena[..apos], words, redirs, st.out.words, st.out.redirs, off, w, |segs|);
      StoredText(arena[..apos], off, w);
      if pend == M.PNone && |words| < M.MAX_WORDS {
        words := words + [off];
      } else if pend == M.POut && |redirs| < M.MAX_REDIR {
        redirs := redirs + [(|segs|, off)];
      } else if pend == M.PHeredoc && |hd| < M.MAX_HD {
        hd := hd + [M.Heredoc(|segs|, Cut(arena[..apos][off..apos - 1]))];
      }
      pend := M.PNone;
      st := M.Route(st, w);
    }

    /** The NUL of tk_end_word. */
    method Terminate()
      requires Valid() && inWord && apos < arena.Length
      modifies this`apos, this`inWord, this`st, arena
      ensures Valid() && st == old(st).(word := None, apos := old(st).apos + 1)
      ensures Stored(arena[..apos], wstart, old(st).word.value.text) && wstart + |old(st).word.value.text| + 1 == apos
    {
      hide Filled, Stored;
      ghost var w, base := st.word.value.text, arena[..wstart];
      arena[apos] := '\0';
      apos := apos + 1;
      inWord := false;
      StoredIntro(arena[..apos], wstart, w);
      FilledMore(base, arena[..apos], words, redirs, st.out.words, st.out.redirs, wstart, w, 0);
      st := st.(word := None, apos := st.apos + 1);
    }

    /** tk_end_word */
    method EndWord()
      requires Valid() && (inWord ==> apos < arena.Length)
      modifies this, arena
      ensures Valid() && st == M.EndWord(old(st))
    {
      hide Filled, Stored, M.Route;
      if inWord {
        ghost var w := st.word.value.text;
        Terminate();
        RouteWord(wstart, w);
      }
    }

    /** tk_end_seg */
    method EndSeg()
      requires Valid() && (inWord ==> apos < arena.Length) && st.cw0 <= |st.out.words|
      modifies this, arena
      ensures Valid() && st == M.EndSeg(old(st))
    {
      hide Filled, M.EndWord, M.CloseSeg;
      EndWordKeeps(st);
      EndWord();
      CloseSeg();
    }

    /** tk_end_seg once the word has ended. */
    method CloseSeg()
      requires Valid() && st.cw0 <= |st.out.words|
      modifies this`pend, this`segs, this`cw0, this`cr0, this`st
      ensures Valid() && st == M.CloseSeg(old(st))
    {
      hide Filled;
      pend := M.PNone;
      if (|words| > cw0 || |redirs| > cr0) && |segs| < M.MAX_SEGS {
        segs := segs + [M.Seg(cw0, |words| - cw0, None)];
      }
      cw0, cr0 := |words|, |redirs|;
      st := M.CloseSeg(st);
    }

    /** What callers may read off the machine state. */
    lemma Fields()
      requires Valid()
      ensures i == st.i && apos == st.apos && inWord == st.word.Some? && arena.Length == 2 * |s| + 16
      ensures cw0 == st.cw0 && hd == st.hd && segs == st.out.segs && subs == st.out.subs
    {
    }

    /** Moves the read position. */
    method Advance(j: nat)
      requires Valid()
      modifies this`i, this`st
      ensures Valid() && st == old(st).(i := j)
    {
      i := j;
      st := st.(i := j);
    }

    /** tk_squote */
    method SingleQuote()
      requires Valid() && Good(st) && i < |s| && s[i] == '\''
      modifies this, arena
      ensures Valid() && st == M.SingleQuote(s[old(i)..], old(st))
    {
      hide Valid, Owned, M.AddQuoted, Span;
      Fields();
      ghost var t, base := st, i + 1;
      var j := i + 1;
      MarkQuoted();
      assert s[j..j] == "";
      while j < |s| && s[j] != '\''
        invariant base <= j <= |s| && '\'' !in s[base..j]
        invariant Valid() && st == M.AddQuoted(t, s[base..j])
        decreases |s| - j
      {
        Fields();
        PushQuoted(t, s[base..j], s[j]);
        Push(s[j]);
        assert s[base..j + 1] == s[base..j] + [s[j]];
        j := j + 1;
      }
      SingleQuoteEnd(s, base, j, t);
      Advance(if j < |s| then j + 1 else |s|);
    }

    /** Pushes s[j..k] onto a quoted word. */
    method PushText(j: nat, k: nat)
      requires Valid() && j <= k <= |s| && st.word.Some? && !st.word.value.digits && st.apos + (k - j) <= 2 * |s|
      modifies this, arena
      ensures Valid() && st == M.AddQuoted(old(st), s[j..k])
    {
      hide Valid, M.AddQuoted;
      ghost var t := st;
      AddNothing(t);
      assert s[j..j] == "";
      for n := j to k
        invariant Valid() && st == M.AddQuoted(t, s[j..n])
      {
        Fields();
        PushQuoted(t, s[j..n], s[n]);
        Push(s[n]);
        assert s[j..n + 1] == s[j..n] + [s[n]];
      }
    }

    /** tk_add_sub */
    method AddSub(off: nat, end: nat)
      requires Valid() && |subs| <= M.MAX_SUBS
      modifies this`subs, this`st
      ensures Valid() && st == WithSubs(old(st), SubOf(off, end))
    {
      hide Filled;
      if |subs| < M.MAX_SUBS && end > off {
        subs := subs + [Sub(off, end - off)];
      }
      st := WithSubs(st, SubOf(off, end));
    }

    /** tk_dq_escape, tk_dq_subst or a plain push, at j inside double quotes. */
    method QuotedTurn(j: nat) returns (n: nat)
      requires Valid() && j < |s| && st.word.Some? && !st.word.value.digits && st.apos + (|s| - j) <= 2 * |s|
      requires |st.out.subs| <= M.MAX_SUBS
      modifies this, arena
      ensures var p := QuotedPiece(s[j..]);
              && Valid() && n == p.n
              && st == WithSubs(M.AddQuoted(old(st), p.text), Shifted(p.subs, j))
    {
      hide Valid, Subst, WithSubs, M.AddQuoted, Shifted;
      Fields();
      ghost var t, r, p := st, s[j..], QuotedPiece(s[j..]);
      if s[j] == '\\' && j + 1 < |s| {
        NoSubs(t, p.text, j);
        if s[j + 1] == '\n' {
          PushText(j, j);
          assert s[j..j] == "";
          return 2;
        } else if s[j + 1] in "\"\\$`" {
          PushText(j + 1, j + 2);
          assert s[j + 1..j + 2] == [s[j + 1]];
          return 2;
        }
        PushText(j, j + 1);
        assert s[j..j + 1] == "\\";
        return 1;
      }
      match Subst(s[j..]) {
        case Some((k, from, to)) =>
          AddSub(j + from, j + to);
          ShiftedOne(from, to, j);
          SubsFirst(t, p.text, SubOf(j + from, j + to));
          PushText(j, j + k);
          assert s[j..j + k] == r[..k];
          n := k;
        case None =>
          NoSubs(t, p.text, j);
          PushText(j, j + 1);
          assert s[j..j + 1] == [s[j]];
          n := 1;
      }
    }

    /** tk_dquote */
    method DoubleQuote()
      requires Valid() && Good(st) && i < |s| && s[i] == '"'
      modifies this, arena
      ensures Valid() && st == M.DoubleQuote(s[old(i)..], old(st))
    {
      hide Valid, M.AddQuoted, Quoted, DqAt, QuotedPiece, WithSubs, Partition;
      Fields();
      ghost var t, base := st, i + 1;
      ghost var d := Quoted(s[base..]);
      ghost var text, found := "", [];
      var j := i + 1;
      MarkQuoted();
      DqStart(s, base, t);
      while j < |s| && s[j] != '"'
        invariant base <= j <= |s| && |text| <= j - base
        invariant DqAt(s, base, d, j, text, found)
        invariant Valid() && st == WithSubs(M.AddQuoted(t, text), found)
        decreases |s| - j
      {
        WithSubsFields(t, text, found);
        ghost var p := QuotedPiece(s[j..]);
        DqStep(s, base, d, j, text, found, p);
        WithSubsMore(t, text, found, p.text, Shifted(p.subs, j));
        var n := QuotedTurn(j);
        text, found, j := text + p.text, found + Shifted(p.subs, j), j + n;
      }
      DqEnd(s, base, d, j, text, found, t);
      Advance(if j < |s| then j + 1 else |s|);
    }

    /** tk_newline */
    method Newline()
      requires Valid() && Good(st) && i < |s| && s[i] == '\n'
      modifies this, arena
      ensures Valid() && st == M.Newline(s[old(i)..], old(st))
    {
      hide Valid, Partition, M.EndSeg, M.Bodies, HeredocBody;
      Fields();
      ghost var t := st;
      var p := i + 1;
      EndSeg();
      Fields();
      ghost var e, from := st, p;
      assert s[from..] == s[t.i..][1..];
      ghost var b := M.Bodies(s[from..], from, e.hd, e.out.segs);
      var more := segs;
      assert e.hd[0..] == e.hd;
      for k := 0 to |hd|
        invariant Valid() && st == e && hd == e.hd && from <= p <= |s| && |more| == |e.out.segs|
        invariant b == (p - from + M.Bodies(s[p..], p, e.hd[k..], more).0, M.Bodies(s[p..], p, e.hd[k..], more).1)
      {
        var body := HeredocBody(s[p..], hd[k].delim);
        BodiesFirst(s[p..], p, e.hd[k..], more);
        assert e.hd[k..][1..] == e.hd[k + 1..] && s[p..][body.next..] == s[p + body.next..];
        var sg := hd[k].seg;
        if sg < |more| && more[sg].body.None? {
          more := more[sg := more[sg].(body := Some(Sub(p, body.len)))];
        }
        p := p + body.next;
      }
      BodiesDone(s[p..], p, more);
      assert e.hd[|hd|..] == [];
      SetSegs(p, more);
    }

    /** The fields tk_newline leaves. */
    method SetSegs(p: nat, more: seq<M.Seg>)
      requires Valid()
      modifies this`i, this`hd, this`segs, this`st
      ensures Valid() && st == old(st).(i := p, hd := [], out := old(st).out.(segs := more))
    {
      hide Filled;
      i, hd, segs := p, [], more;
      st := st.(i := p, hd := [], out := st.out.(segs := more));
    }

    /** tk_op_begin */
    method OpBegin()
      requires Valid() && Good(st) && i < |s|
      modifies this, arena
      ensures Valid() && st == M.OpBegin(old(st))
    {
      hide Filled, Partition;
      if inWord && digits {
        apos := wstart;
        inWord := false;
        st := M.OpBegin(st);
      } else {
        EndWord();
      }
    }

    method SetPend(kind: M.Pend, j: nat)
      requires Valid()
      modifies this`pend, this`i, this`st
      ensures Valid() && st == old(st).(pend := kind, i := j)
    {
      hide Filled;
      pend, i := kind, j;
      st := st.(pend := kind, i := j);
    }

    method StepWs() returns (taken: bool)
      requires Valid() && Good(st) && i < |s|
      modifies this, arena
      ensures Valid()
      ensures match M.StepWs(s[old(i)..], old(st)) case Some(e) => taken && st == e case None => !taken && st == old(st)
    {
      hide Valid, Partition, M.EndWord, Span;
      Fields();
      var c := s[i];
      if c == ' ' || c == '\t' || c == '\r' {
        EndWordKeeps(st);
        EndWord();
        Fields();
        Advance(i + 1);
        return true;
      }
      if c == '#' && !inWord {
        Advance(i + Span(s[i..], '\n'));
        return true;
      }
      taken := false;
    }

    /** tk_mark_quoted and one push, for an escaped character. */
    method AddQuotedChar(c: char)
      requires Valid() && apos < arena.Length
      modifies this, arena
      ensures Valid() && st == M.AddQuoted(old(st), [c])
    {
      hide Valid, M.AddQuoted;
      ghost var t := st;
      Fields();
      MarkQuoted();
      Fields();
      PushQuoted(t, "", c);
      assert "" + [c] == [c];
      Push(c);
    }

    method StepQuote() returns (taken: bool)
      requires Valid() && Good(st) && i < |s|
      modifies this, arena
      ensures Valid()
      ensures match M.StepQuote(s[old(i)..], old(st))
              case Some(e) => taken && st == e
              case None => !taken && st == old(st)
    {
      hide Valid, Partition, M.SingleQuote, M.DoubleQuote;
      Fields();
      var c := s[i];
      taken := true;
      if c == '\'' {
        SingleQuote();
      } else if c == '"' {
        DoubleQuote();
      } else if c == '\\' {
        if i + 1 == |s| {
          Advance(i + 1);
        } else if s[i + 1] == '\n' {
          Advance(i + 2);
        } else {
          AddQuotedChar(s[i + 1]);
          Fields();
          Advance(i + 2);
        }
      } else {
        taken := false;
      }
    }

    method StepRedir() returns (taken: bool)
      requires Valid() && Good(st) && i < |s|
      modifies this, arena
      ensures Valid()
      ensures match M.StepRedir(s[old(i)..], old(st))
              case Some(e) => taken && st == e
              case None => !taken && st == old(st)
    {
      hide Valid, Partition, M.EndSeg, M.OpBegin, M.RedirTail;
      Fields();
      var r := s[i..];
      var ampOut := r[0] == '&' && M.At(r, 1) == Some('>');
      if r[0] != '>' && r[0] != '<' && !ampOut { return false; }
      taken := true;
      if M.At(r, 1) == Some('(') && !ampOut {
        EndSegGood(st);
        EndSeg();
        Fields();
        Advance(i + 2);
      } else {
        var (j, kind) := M.RedirTail(r, if ampOut then 2 else 1, r[0]);
        OpBeginGood(st);
        OpBegin();
        Fields();
        SetPend(kind, i + j);
      }
    }

    method StepSep() returns (taken: bool)
      requires Valid() && Good(st) && i < |s|
      modifies this, arena
      ensures Valid()
      ensures match M.StepSep(s[old(i)..], old(st))
              case Some(e) => taken && st == e
              case None => !taken && st == old(st)
    {
      hide Valid, Partition, M.EndSeg, M.Newline;
      Fields();
      var r := s[i..];
      EndSegGood(st);
      taken := true;
      if r[0] == '\n' {
        Newline();
      } else if r[0] in ";()`" {
        EndSeg();
        Fields();
        Advance(i + 1);
      } else if r[0] == '|' || r[0] == '&' {
        var two := M.At(r, 1) == Some(r[0]) || (r[0] == '|' && M.At(r, 1) == Some('&'));
        EndSeg();
        Fields();
        Advance(i + if two then 2 else 1);
      } else if r[0] == '$' && M.At(r, 1) == Some('(') {
        EndSeg();
        Fields();
        Advance(i + 2);
      } else {
        taken := false;
      }
    }

    /** tokenize: the words, redirects, segments and substitutions left in the
        fields are those of the machine run. */
    method Tokenize()
      requires Valid() && st == M.START
      modifies this, arena
      ensures Valid() && st == M.Run(s, M.START) && !inWord
    {
      hide Valid, Good, M.Step, M.Run, M.EndSeg, M.StepWs, M.StepQuote, M.StepRedir, M.StepSep;
      StartGood();
      assert s[0..] == s;
      Fields();
      while i < |s|
        invariant Valid() && Good(st) && i == st.i <= |s|
        invariant M.Run(s[i..], st) == M.Run(s, M.START)
        decreases |s| - i
      {
        ghost var t, r := st, s[i..];
        M.StepAdvances(r, t);
        StepGood(r, t);
        RunNext(s, t);
        TurnIs(r, t);
        var taken := StepWs();
        Fields();
        if !taken { taken := StepQuote(); }
        Fields();
        if !taken { taken := StepRedir(); }
        Fields();
        if !taken { taken := StepSep(); }
        if !taken {
          Fields();
          GoodRoom(st, |s|);
          Push(s[i]);
          Fields();
          Advance(i + 1);
        }
        assert st == M.Step(r, t);
        Fields();
      }
      Fields();
      GoodRoom(st, |s|);
      assert s[|s|..] == "";
      RunDone(st);
      EndSeg();
      Fields();
    }
  }

  lemma SingleQuoteEnd(s: string, base: nat, j: nat, t: M.Tok)
    requires base == t.i + 1 <= j <= |s| && '\'' !in s[base..j] && (j < |s| ==> s[j] == '\'')
    ensures M.AddQuoted(t, s[base..j]).(i := if j < |s| then j + 1 else |s|) == M.SingleQuote(s[t.i..], t)
  {
    hide Span, M.AddQuoted;
    var r := s[t.i..];
    assert r[1..][..j - base] == s[base..j];
    SpanFound(r[1..], '\'', j - base);
    assert r[1..1 + (j - base)] == s[base..j];
  }

  /** t with these substitutions recorded. */
  ghost function WithSubs(t: M.Tok, more: seq<Sub>): M.Tok {
    t.(out := t.out.(subs := M.AddSubs(t.out.subs, more)))
  }

  lemma NoSubs(t: M.Tok, text: string, j: nat)
    requires |t.out.subs| <= M.MAX_SUBS
    ensures WithSubs(M.AddQuoted(t, text), Shifted([], j)) == M.AddQuoted(t, text)
  {
    assert Shifted([], j) == [] && t.out.subs + [] == t.out.subs;
  }

  lemma SubsFirst(t: M.Tok, text: string, more: seq<Sub>)
    requires t.word.Some? && !t.word.value.digits && |t.out.subs| <= M.MAX_SUBS
    ensures var u := WithSubs(t, more);
            && M.AddQuoted(u, text) == WithSubs(M.AddQuoted(t, text), more)
            && u.word == t.word && u.apos == t.apos && |u.out.subs| <= M.MAX_SUBS
  {
  }

  lemma ShiftedOne(from: nat, to: nat, j: nat)
    ensures Shifted(SubOf(from, to), j) == SubOf(j + from, j + to)
  {
  }

  lemma WithSubsFields(t: M.Tok, text: string, found: seq<Sub>)
    requires |t.out.subs| <= M.MAX_SUBS
    ensures var u := WithSubs(M.AddQuoted(t, text), found);
            u.apos == t.apos + |text| && u.word.Some? && !u.word.value.digits && |u.out.subs| <= M.MAX_SUBS
  {
  }

  lemma WithSubsMore(t: M.Tok, text: string, found: seq<Sub>, text': string, found': seq<Sub>)
    requires |t.out.subs| <= M.MAX_SUBS
    ensures WithSubs(M.AddQuoted(WithSubs(M.AddQuoted(t, text), found), text'), found')
         == WithSubs(M.AddQuoted(t, text + text'), found + found')
  {
    assert M.Built(t) + text + text' == M.Built(t) + (text + text');
    assert t.out.subs + found + found' == t.out.subs + (found + found');
  }

  /** At j the region from base has added this text and these substitutions; the
      rest of it is still to come. */
  ghost predicate DqAt(s: string, base: nat, d: Dq, j: nat, text: string, found: seq<Sub>) {
    && base <= j <= |s|
    && var e := Quoted(s[j..]);
       && text + e.text == d.text
       && found + Shifted(e.subs, j) == Shifted(d.subs, base)
       && j + e.next == base + d.next
  }

  lemma DqStart(s: string, base: nat, t: M.Tok)
    requires base <= |s| && |t.out.subs| <= M.MAX_SUBS
    ensures DqAt(s, base, Quoted(s[base..]), base, "", [])
    ensures M.AddQuoted(t, "") == WithSubs(M.AddQuoted(t, ""), [])
  {
    hide Quoted;
    NoSubs(t, "", 0);
    assert Shifted([], 0) == [];
    var e := Quoted(s[base..]);
    assert "" + e.text == e.text && [] + Shifted(e.subs, base) == Shifted(e.subs, base);
  }

  lemma DqStep(s: string, base: nat, d: Dq, j: nat, text: string, found: seq<Sub>, p: Piece)
    requires DqAt(s, base, d, j, text, found) && j < |s| && s[j] != '"' && p == QuotedPiece(s[j..])
    ensures DqAt(s, base, d, j + p.n, text + p.text, found + Shifted(p.subs, j))
  {
    hide QuotedPiece;
    var r := s[j..];
    var e := Quoted(r[p.n..]);
    assert r[p.n..] == s[j + p.n..];
    assert Quoted(r) == Then(p.n, p.text, p.subs, e);
    assert text + p.text + e.text == text + (p.text + e.text);
    assert Shifted(p.subs + Shifted(e.subs, p.n), j) == Shifted(p.subs, j) + Shifted(e.subs, j + p.n);
    assert found + Shifted(p.subs, j) + Shifted(e.subs, j + p.n)
      == found + (Shifted(p.subs, j) + Shifted(e.subs, j + p.n));
  }

  lemma DqEnd(s: string, base: nat, d: Dq, j: nat, text: string, found: seq<Sub>, t: M.Tok)
    requires DqAt(s, base, d, j, text, found) && (j < |s| ==> s[j] == '"')
    requires base == t.i + 1 && t.i < |s| && s[t.i] == '"' && d == Quoted(s[base..])
    ensures WithSubs(M.AddQuoted(t, text), found).(i := if j < |s| then j + 1 else |s|) == M.DoubleQuote(s[t.i..], t)
  {
    assert text + "" == text && found + Shifted([], j) == found;
    assert s[t.i..][1..] == s[base..];
  }

  lemma AddNothing(t: M.Tok)
    requires t.word.Some? && !t.word.value.digits
    ensures M.AddQuoted(t, "") == t
  {
    assert t.word.value.text + "" == t.word.value.text;
  }

  /** Inside a quoted word a push stays quoted. */
  lemma PushQuoted(t: M.Tok, text: string, c: char)
    ensures M.Push(M.AddQuoted(t, text), c) == M.AddQuoted(t, text + [c])
    ensures M.AddQuoted(t, text).apos == t.apos + |text|
  {
    assert M.Built(t) + text + [c] == M.Built(t) + (text + [c]);
  }

  lemma BodiesFirst(r: string, p: nat, hd: seq<M.Heredoc>, segs: seq<M.Seg>)
    requires hd != []
    ensures var b := HeredocBody(r, hd[0].delim);
            var rest := M.Bodies(r[b.next..], p + b.next, hd[1..], M.Attach(segs, hd[0].seg, Sub(p, b.len)));
            M.Bodies(r, p, hd, segs) == (b.next + rest.0, rest.1)
  {
    hide HeredocBody;
  }

  lemma BodiesDone(r: string, p: nat, segs: seq<M.Seg>)
    ensures M.Bodies(r, p, [], segs) == (0, segs)
  {
  }

  lemma GoodRoom(t: M.Tok, n: nat)
    requires Good(t) && t.i <= n
    ensures t.apos <= 2 * n && t.cw0 <= |t.out.words|
  {
    hide Partition;
  }

  lemma RunDone(t: M.Tok)
    ensures M.Run("", t) == M.EndSeg(t) && M.EndSeg(t).word.None?
  {
  }

  lemma RunNext(s: string, t: M.Tok)
    requires t.i < |s|
    ensures t.i < M.Step(s[t.i..], t).i <= |s|
    ensures M.Run(s[t.i..], t) == M.Run(s[M.Step(s[t.i..], t).i..], M.Step(s[t.i..], t))
  {
    hide M.Step;
    var e := M.Step(s[t.i..], t);
    M.StepAdvances(s[t.i..], t);
    assert s[t.i..][e.i - t.i..] == s[e.i..];
  }

  /** The first sub-step that applies, or a push. */
  lemma TurnIs(r: string, t: M.Tok)
    requires r != ""
    ensures M.Step(r, t) ==
      match M.StepWs(r, t) case Some(e) => e case None =>
      match M.StepQuote(r, t) case Some(e) => e case None =>
      match M.StepRedir(r, t) case Some(e) => e case None =>
      match M.StepSep(r, t) case Some(e) => e case None => M.Push(t, r[0]).(i := t.i + 1)
  {
    hide M.StepWs, M.StepQuote, M.StepRedir, M.StepSep;
  }
}
