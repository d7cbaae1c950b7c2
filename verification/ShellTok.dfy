/** The agent guard's shell tokenizer as a machine over the text still to be
    read: what one step does to the word being built, the pending redirect, the
    heredocs awaiting a body, and the tokens so far. */
module ShellTok {
  import opened Wrappers
  import opened Text
  import opened ShellScan

  const MAX_WORDS: nat := 4096
  const MAX_SEGS: nat := 1024
  const MAX_REDIR: nat := 512
  const MAX_SUBS: nat := 64
  const MAX_HD: nat := 4

  /** A command: nw words from w0 on, and the heredoc that feeds it. */
  datatype Seg = Seg(w0: nat, nw: nat, body: Option<Sub>)

  datatype Redir = Redir(seg: nat, word: string)

  datatype Tokens = Tokens(words: seq<string>, redirs: seq<Redir>, segs: seq<Seg>, subs: seq<Sub>)

  datatype Pend = PNone | POut | PIn | PHeredoc

  datatype Heredoc = Heredoc(seg: nat, delim: string)

  /** The word being built; `digits` while it is a bare number. */
  datatype Word = Word(text: string, digits: bool)

  /** `i` characters read, `apos` characters of the arena used. */
  datatype Tok = Tok(i: nat, apos: nat, word: Option<Word>, pend: Pend, cw0: nat, cr0: nat, hd: seq<Heredoc>,
                     out: Tokens)

  const NOTHING: Tokens := Tokens([], [], [], [])

  const START: Tok := Tok(0, 0, None, PNone, 0, 0, [], NOTHING)

  /* ---- words ---------------------------------------------------------------- */

  function Built(t: Tok): string {
    match t.word case None => "" case Some(w) => w.text
  }

  /** tk_push */
  function Push(t: Tok, c: char): Tok {
    t.(word := Some(Word(Built(t) + [c], (t.word.None? || t.word.value.digits) && '0' <= c <= '9')), apos := t.apos + 1)
  }

  /** tk_mark_quoted followed by pushes */
  function AddQuoted(t: Tok, text: string): Tok {
    t.(word := Some(Word(Built(t) + text, false)), apos := t.apos + |text|)
  }

  /** tk_route_word */
  function Route(t: Tok, w: string): Tok {
    var o := t.out;
    if t.pend == PNone && |o.words| < MAX_WORDS then
      t.(out := o.(words := o.words + [w]))
    else if t.pend == POut && |o.redirs| < MAX_REDIR then
      t.(pend := PNone, out := o.(redirs := o.redirs + [Redir(|o.segs|, w)]))
    else if t.pend == PHeredoc && |t.hd| < MAX_HD then
      t.(pend := PNone, hd := t.hd + [Heredoc(|o.segs|, Cut(w))])
    else
      t.(pend := PNone)
  }

  /** tk_end_word */
  function EndWord(t: Tok): Tok {
    match t.word
    case None => t
    case Some(w) => Route(t.(word := None, apos := t.apos + 1), w.text)
  }

  /** tk_end_seg once the word has ended */
  function CloseSeg(t: Tok): Tok {
    var o := t.out;
    var segs := if (|o.words| > t.cw0 || |o.redirs| > t.cr0) && |o.segs| < MAX_SEGS
      then o.segs + [Seg(t.cw0, if |o.words| > t.cw0 then |o.words| - t.cw0 else 0, None)] else o.segs;
    t.(pend := PNone, cw0 := |o.words|, cr0 := |o.redirs|, out := o.(segs := segs))
  }

  function EndSeg(t: Tok): Tok {
    CloseSeg(EndWord(t))
  }

  /* ---- newlines and heredoc bodies -------------------------------------------- */

  /** The first body of a segment is kept. */
  function Attach(segs: seq<Seg>, seg: nat, body: Sub): (r: seq<Seg>)
    ensures |r| == |segs|
  {
    if seg < |segs| && segs[seg].body.None? then segs[seg := segs[seg].(body := Some(body))] else segs
  }

  /** Reads one body per waiting heredoc from text r at offset p. */
  function Bodies(r: string, p: nat, hd: seq<Heredoc>, segs: seq<Seg>): (b: (nat, seq<Seg>))
    ensures b.0 <= |r| && |b.1| == |segs|
    decreases |hd|
  {
    if hd == [] then (0, segs)
    else
      var b := HeredocBody(r, hd[0].delim);
      var (n, rest) := Bodies(r[b.next..], p + b.next, hd[1..], Attach(segs, hd[0].seg, Sub(p, b.len)));
      (b.next + n, rest)
  }

  /** tk_newline */
  function Newline(r: string, t: Tok): Tok
    requires r != ""
  {
    var e := EndSeg(t);
    var (n, segs) := Bodies(r[1..], t.i + 1, e.hd, e.out.segs);
    e.(i := t.i + 1 + n, hd := [], out := e.out.(segs := segs))
  }

  /* ---- steps ----------------------------------------------------------------------- */

  function AddSubs(subs: seq<Sub>, more: seq<Sub>): seq<Sub> {
    var all := subs + more;
    if |all| <= MAX_SUBS then all else all[..MAX_SUBS]
  }

  function StepWs(r: string, t: Tok): Option<Tok>
    requires r != ""
  {
    if r[0] == ' ' || r[0] == '\t' || r[0] == '\r' then
      var e := EndWord(t);
      Some(e.(i := t.i + 1))
    else if r[0] == '#' && t.word.None? then Some(t.(i := t.i + Span(r, '\n')))
    else None
  }

  /** tk_squote */
  function SingleQuote(r: string, t: Tok): Tok
    requires r != ""
  {
    var q := Span(r[1..], '\'');
    AddQuoted(t, r[1..1 + q]).(i := t.i + if q + 1 < |r| then q + 2 else |r|)
  }

  /** tk_dquote */
  function DoubleQuote(r: string, t: Tok): Tok
    requires r != ""
  {
    var d := Quoted(r[1..]);
    var e := AddQuoted(t, d.text);
    e.(i := t.i + 1 + d.next, out := t.out.(subs := AddSubs(t.out.subs, Shifted(d.subs, t.i + 1))))
  }

  function StepQuote(r: string, t: Tok): Option<Tok>
    requires r != ""
  {
    if r[0] == '\'' then Some(SingleQuote(r, t))
    else if r[0] == '"' then Some(DoubleQuote(r, t))
    else if r[0] == '\\' then
      if |r| == 1 then Some(t.(i := t.i + 1))
      else if r[1] == '\n' then Some(t.(i := t.i + 2))
      else Some(AddQuoted(t, [r[1]]).(i := t.i + 2))
    else None
  }

  /** tk_op_begin: a bare number before a redirect is its descriptor, not a word. */
  function OpBegin(t: Tok): Tok {
    match t.word
    case None => t
    case Some(w) =>
      if w.digits then t.(word := None, apos := if t.apos < |w.text| then 0 else t.apos - |w.text|)
      else EndWord(t)
  }

  function At(r: string, j: nat): Option<char> {
    if j < |r| then Some(r[j]) else None
  }

  /** tk_redir_tail: the index past the operator whose tail starts at j, and the
      kind of redirect. `ch` is the operator's first character, '&' for "&>". */
  function RedirTail(r: string, j: nat, ch: char): (k: (nat, Pend))
    requires j <= |r|
    ensures j <= k.0 <= |r|
  {
    if ch == '>' then
      (if At(r, j) == Some('>') || At(r, j) == Some('|') || At(r, j) == Some('&') then j + 1 else j, POut)
    else if At(r, j) == Some('<') then
      if At(r, j + 1) == Some('<') then (j + 2, PIn)
      else (if At(r, j + 1) == Some('-') then j + 2 else j + 1, PHeredoc)
    else
      (if At(r, j) == Some('&') then j + 1 else j, if ch == '<' then PIn else POut)
  }

  function StepRedir(r: string, t: Tok): Option<Tok>
    requires r != ""
  {
    var ampOut := r[0] == '&' && At(r, 1) == Some('>');
    if r[0] != '>' && r[0] != '<' && !ampOut then None
    else if At(r, 1) == Some('(') && !ampOut then
      var e := EndSeg(t);
      Some(e.(i := t.i + 2))
    else
      var (j, kind) := RedirTail(r, if ampOut then 2 else 1, r[0]);
      var e := OpBegin(t);
      Some(e.(pend := kind, i := t.i + j))
  }

  function StepSep(r: string, t: Tok): Option<Tok>
    requires r != ""
  {
    if r[0] == '\n' then Some(Newline(r, t))
    else if r[0] in ";()`" then
      var e := EndSeg(t);
      Some(e.(i := t.i + 1))
    else if r[0] == '|' || r[0] == '&' then
      var two := At(r, 1) == Some(r[0]) || (r[0] == '|' && At(r, 1) == Some('&'));
      var e := EndSeg(t);
      Some(e.(i := t.i + if two then 2 else 1))
    else if r[0] == '$' && At(r, 1) == Some('(') then
      var e := EndSeg(t);
      Some(e.(i := t.i + 2))
    else None
  }

  /** One turn of the loop in tokenize. */
  function Step(r: string, t: Tok): (e: Tok)
    requires r != ""
  {
    match StepWs(r, t)
    case Some(e) => e
    case None =>
      match StepQuote(r, t)
      case Some(e) => e
      case None =>
        match StepRedir(r, t)
        case Some(e) => e
        case None =>
          match StepSep(r, t)
          case Some(e) => e
          case None => Push(t, r[0]).(i := t.i + 1)
  }

  /** Every step reads at least one character and never past the end. */
  lemma StepAdvances(r: string, t: Tok)
    requires r != ""
    ensures t.i < Step(r, t).i <= t.i + |r|
  {
    hide EndWord, CloseSeg, AddQuoted, OpBegin, Bodies, Quoted;
  }

  /** The loop of tokenize from state t with text r to go, and its final end_seg. */
  function Run(r: string, t: Tok): Tok
    decreases |r|
  {
    if r == "" then EndSeg(t)
    else
      StepAdvances(r, t);
      var e := Step(r, t);
      Run(r[e.i - t.i..], e)
  }

  function Tokenize(s: string): Tokens {
    Run(s, START).out
  }
}
