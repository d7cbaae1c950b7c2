/** The read-only scanners of the agent guard's shell reader: quotes, `$( )`
    regions and heredocs. Each is a function of the text still to be read and
    gives the number of characters it passes over. */
module ShellScan {
  import opened Wrappers
  import opened Text

  const MAX_LEVEL: nat := 12
  const DELIM_CAP: nat := 63

  /* ---- heredocs ----------------------------------------------------------------- */

  predicate DelimStop(c: char) {
    c in " \t\n;|&()<>"
  }

  function SkipBlanks(r: string): (n: nat)
    ensures n <= |r|
  {
    if r != "" && (r[0] == ' ' || r[0] == '\t') then 1 + SkipBlanks(r[1..]) else 0
  }

  function SkipTabs(r: string): (n: nat)
    ensures n <= |r|
  {
    if r != "" && r[0] == '\t' then 1 + SkipTabs(r[1..]) else 0
  }

  function DelimLen(r: string): (n: nat)
    ensures n <= |r| && (n < |r| ==> DelimStop(r[n]))
  {
    if r == "" || DelimStop(r[0]) then 0 else 1 + DelimLen(r[1..])
  }

  /** A delimiter word with its quoting characters removed. */
  function Unquoted(w: string): string {
    if w == "" then ""
    else if w[0] == '\'' || w[0] == '"' || w[0] == '\\' then Unquoted(w[1..])
    else [w[0]] + Unquoted(w[1..])
  }

  function Cut(w: string): string {
    if |w| <= DELIM_CAP then w else w[..DELIM_CAP]
  }

  /** How a heredoc ends: never, at the end of the text, or at a newline. */
  datatype End = Missing | Unterminated | Terminated

  /** The body length, the characters read in all, and how it ended. */
  datatype Body = Body(len: nat, next: nat, end: End)

  /** The line, its leading tabs aside, is the delimiter. */
  predicate IsDelim(line: string, delim: string) {
    line[SkipTabs(line)..] == delim
  }

  /** read_heredoc_body, from the start of a line. */
  function HeredocBody(r: string, delim: string): (b: Body)
    ensures b.len <= b.next <= |r|
    ensures b.end != Terminated ==> b.next == |r|
    decreases |r|
  {
    if r == "" then Body(0, 0, Missing)
    else
      var eol := Span(r, '\n');
      if IsDelim(r[..eol], delim) then
        if eol < |r| then Body(0, eol + 1, Terminated) else Body(0, |r|, Unterminated)
      else if eol < |r| then
        var b := HeredocBody(r[eol + 1..], delim);
        Body(eol + 1 + b.len, eol + 1 + b.next, b.end)
      else
        Body(|r|, |r|, Missing)
  }

  /** parse_delim: the index past the delimiter word, and the delimiter. */
  function ParseDelim(r: string): (d: (nat, string))
    ensures d.0 <= |r|
  {
    var b := SkipBlanks(r);
    var w := b + DelimLen(r[b..]);
    (w, Cut(Unquoted(r[b..w])))
  }

  /** skip_heredoc, just past the "<<". */
  function SkipHeredoc(r: string): (n: nat)
    ensures n <= |r|
  {
    var dash := if r != "" && r[0] == '-' then 1 else 0;
    dash + SkipHeredocWord(r[dash..])
  }

  function SkipHeredocWord(r: string): (n: nat)
    ensures n <= |r|
  {
    var (w, delim) := ParseDelim(r);
    if delim == "" then w
    else
      var eol := w + Span(r[w..], '\n');
      if eol == |r| then |r| else eol + 1 + HeredocBody(r[eol + 1..], delim).next
  }

  /* ---- $( ) and double quotes ------------------------------------------------------ */

  /** skip_paren at the given bracket depth: past the matching ")". */
  function SkipParen(r: string, depth: nat, level: nat): (n: nat)
    ensures n <= |r|
    decreases |r|
  {
    if level > MAX_LEVEL || r == "" then |r|
    else if r[0] == '\\' then
      if |r| < 2 then |r| else 2 + SkipParen(r[2..], depth, level)
    else if r[0] == '\'' then
      var q := Span(r[1..], '\'');
      if q + 1 == |r| then |r| else q + 2 + SkipParen(r[q + 2..], depth, level)
    else if r[0] == '"' then
      var q := 1 + SkipDq(r[1..], level + 1);
      q + SkipParen(r[q..], depth, level)
    else if r[0] == '<' && |r| > 2 && r[1] == '<' && r[2] != '<' then
      var q := 2 + SkipHeredoc(r[2..]);
      q + SkipParen(r[q..], depth, level)
    else if r[0] == ')' && depth <= 1 then 1
    else
      1 + SkipParen(r[1..], if r[0] == '(' then depth + 1 else if r[0] == ')' then depth - 1 else depth, level)
  }

  /** skip_dq, just past the opening quote: past the closing one. */
  function SkipDq(r: string, level: nat): (n: nat)
    ensures n <= |r|
    decreases |r|
  {
    if r == "" then 0
    else if r[0] == '\\' then
      if |r| < 2 then |r| else 2 + SkipDq(r[2..], level)
    else if r[0] == '"' then 1
    else if r[0] == '$' && |r| > 1 && r[1] == '(' then
      var q := 2 + SkipParen(r[2..], 1, level + 1);
      q + SkipDq(r[q..], level)
    else
      1 + SkipDq(r[1..], level)
  }

  /** The body of a backtick region, up to the closing backtick. */
  function SkipTick(r: string): (n: nat)
    ensures n <= |r|
    decreases |r|
  {
    if r == "" || r[0] == '`' then 0
    else if r[0] == '\\' then if |r| < 2 then |r| else 2 + SkipTick(r[2..])
    else 1 + SkipTick(r[1..])
  }

  /** A substitution inside double quotes: offset and length of its text. */
  datatype Sub = Sub(off: nat, len: nat)

  /** What a double-quoted region reads: characters passed, text it adds to the
      word, substitutions (offsets from the region's start), and whether the
      closing quote was found. */
  datatype Dq = Dq(next: nat, text: string, subs: seq<Sub>, closed: bool)

  function Then(n: nat, text: string, subs: seq<Sub>, rest: Dq): Dq {
    Dq(n + rest.next, text + rest.text, subs + Shifted(rest.subs, n), rest.closed)
  }

  function Shifted(subs: seq<Sub>, n: nat): (r: seq<Sub>)
    ensures |r| == |subs|
    ensures forall k :: 0 <= k < |subs| ==> r[k] == Sub(subs[k].off + n, subs[k].len)
  {
    seq(|subs|, k requires 0 <= k < |subs| => Sub(subs[k].off + n, subs[k].len))
  }

  /** Where a `$( )` or backtick region in double quotes ends, if one starts here,
      and the end of its body. */
  function Subst(r: string): (o: Option<(nat, nat, nat)>)
    ensures o.Some? ==> 0 < o.value.0 <= |r| && o.value.1 <= o.value.0 && o.value.2 <= o.value.0
  {
    if |r| > 1 && r[0] == '$' && r[1] == '(' then
      var n := 2 + SkipParen(r[2..], 1, 0);
      Some((n, 2, if n > 2 && r[n - 1] == ')' then n - 1 else n))
    else if r != "" && r[0] == '`' then
      var e := 1 + SkipTick(r[1..]);
      Some((if e < |r| then e + 1 else e, 1, e))
    else None
  }

  function SubOf(from: nat, to: nat): (s: seq<Sub>) {
    if to <= from then [] else [Sub(from, to - from)]
  }

  /** One turn of tk_dquote's loop: an escape, a substitution or a character.
      `subs` counts offsets from the start of r. */
  datatype Piece = Piece(n: nat, text: string, subs: seq<Sub>)

  function QuotedPiece(r: string): (p: Piece)
    requires r != ""
    ensures 0 < p.n <= |r| && |p.text| <= p.n
  {
    if r[0] == '\\' && |r| > 1 then
      if r[1] == '\n' then Piece(2, "", [])
      else if r[1] in "\"\\$`" then Piece(2, [r[1]], [])
      else Piece(1, "\\", [])
    else
      match Subst(r)
      case Some((n, from, to)) => Piece(n, r[..n], SubOf(from, to))
      case None => Piece(1, [r[0]], [])
  }

  /** tk_dquote, just past the opening quote. */
  function Quoted(r: string): (d: Dq)
    ensures d.next <= |r| && |d.text| <= d.next && (d.closed ==> |d.text| < d.next)
    decreases |r|
  {
    if r == "" then Dq(0, "", [], false)
    else if r[0] == '"' then Dq(1, "", [], true)
    else
      var p := QuotedPiece(r);
      Then(p.n, p.text, p.subs, Quoted(r[p.n..]))
  }

  /** The substitutions of a region lie inside it. */
  lemma {:induction false} QuotedSubs(r: string)
    ensures forall k :: 0 <= k < |Quoted(r).subs| ==> Quoted(r).subs[k].off + Quoted(r).subs[k].len <= Quoted(r).next
    decreases |r|
  {
    hide Subst;
    if r != "" && r[0] != '"' {
      QuotedSubs(r[QuotedPiece(r).n..]);
    }
  }

  /* ---- more text after the end ----------------------------------------------------------
     Scanners that stop before the end of the text stop at the same place whatever
     is added after it. */

  lemma {:induction false} SkipBlanksExtend(r: string, x: string)
    requires SkipBlanks(r) < |r|
    ensures SkipBlanks(r + x) == SkipBlanks(r)
    decreases |r|
  {
    if r[0] == ' ' || r[0] == '\t' {
      assert (r + x)[1..] == r[1..] + x;
      SkipBlanksExtend(r[1..], x);
    }
  }

  lemma {:induction false} DelimLenExtend(r: string, x: string)
    requires DelimLen(r) < |r|
    ensures DelimLen(r + x) == DelimLen(r)
    decreases |r|
  {
    if !DelimStop(r[0]) {
      assert (r + x)[1..] == r[1..] + x;
      DelimLenExtend(r[1..], x);
    }
  }

  lemma {:induction false} BodyExtend(r: string, x: string, delim: string)
    requires HeredocBody(r, delim).end == Terminated
    ensures HeredocBody(r + x, delim) == HeredocBody(r, delim)
    decreases |r|
  {
    hide Span, IsDelim;
    var eol := Span(r, '\n');
    SpanExtend(r, x, '\n');
    Tail(r, x, eol);
    Tail(r, x, eol + 1);
    if !IsDelim(r[..eol], delim) { BodyExtend(r[eol + 1..], x, delim); }
  }

  /** A delimiter on the unfinished last line is found when the line is finished. */
  lemma {:induction false} BodyFinish(r: string, y: string, delim: string)
    requires HeredocBody(r, delim).end == Unterminated && y != "" && y[0] == '\n'
    ensures HeredocBody(r + y, delim) == Body(HeredocBody(r, delim).len, |r| + 1, Terminated)
    decreases |r|
  {
    hide Span, IsDelim;
    var eol := Span(r, '\n');
    if eol < |r| {
      SpanExtend(r, y, '\n');
      Tail(r, y, eol);
      Tail(r, y, eol + 1);
      BodyFinish(r[eol + 1..], y, delim);
    } else {
      SpanThrough(r, y, '\n');
      SpanFound(y, '\n', 0);
      Tail(r, y, eol);
    }
  }

  lemma ParseDelimExtend(r: string, x: string)
    requires ParseDelim(r).0 < |r|
    ensures ParseDelim(r + x) == ParseDelim(r)
  {
    hide SkipBlanks, DelimLen, Unquoted, Cut;
    var b := SkipBlanks(r);
    SkipBlanksExtend(r, x);
    Tail(r, x, b);
    DelimLenExtend(r[b..], x);
    var w := b + DelimLen(r[b..]);
    assert (r + x)[b..w] == r[b..w];
  }

  lemma SkipHeredocWordExtend(r: string, x: string)
    requires SkipHeredocWord(r) < |r|
    ensures SkipHeredocWord(r + x) == SkipHeredocWord(r)
  {
    hide Span, ParseDelim, HeredocBody;
    var (w, delim) := ParseDelim(r);
    ParseDelimExtend(r, x);
    if delim != "" {
      var eol := w + Span(r[w..], '\n');
      Tail(r, x, w);
      SpanExtend(r[w..], x, '\n');
      Tail(r, x, eol + 1);
      BodyExtend(r[eol + 1..], x, delim);
    }
  }

  lemma SkipHeredocExtend(r: string, x: string)
    requires SkipHeredoc(r) < |r|
    ensures SkipHeredoc(r + x) == SkipHeredoc(r)
  {
    hide SkipHeredocWord;
    var dash := if r != "" && r[0] == '-' then 1 else 0;
    Tail(r, x, dash);
    SkipHeredocWordExtend(r[dash..], x);
  }

  lemma {:induction false} SkipParenExtend(r: string, x: string, depth: nat, level: nat)
    requires SkipParen(r, depth, level) < |r|
    ensures SkipParen(r + x, depth, level) == SkipParen(r, depth, level)
    decreases |r|
  {
    hide Span, SkipHeredoc;
    if r[0] == '\\' {
      Tail(r, x, 2);
      SkipParenExtend(r[2..], x, depth, level);
    } else if r[0] == '\'' {
      var q := Span(r[1..], '\'');
      Tail(r, x, 1);
      SpanExtend(r[1..], x, '\'');
      Tail(r, x, q + 2);
      SkipParenExtend(r[q + 2..], x, depth, level);
    } else if r[0] == '"' {
      var q := 1 + SkipDq(r[1..], level + 1);
      Tail(r, x, 1);
      SkipDqExtend(r[1..], x, level + 1);
      Tail(r, x, q);
      SkipParenExtend(r[q..], x, depth, level);
    } else if r[0] == '<' && |r| > 2 && r[1] == '<' && r[2] != '<' {
      var q := 2 + SkipHeredoc(r[2..]);
      Tail(r, x, 2);
      SkipHeredocExtend(r[2..], x);
      Tail(r, x, q);
      SkipParenExtend(r[q..], x, depth, level);
    } else if !(r[0] == ')' && depth <= 1) {
      Tail(r, x, 1);
      SkipParenExtend(r[1..], x, if r[0] == '(' then depth + 1 else if r[0] == ')' then depth - 1 else depth, level);
    }
  }

  lemma {:induction false} SkipDqExtend(r: string, x: string, level: nat)
    requires SkipDq(r, level) < |r|
    ensures SkipDq(r + x, level) == SkipDq(r, level)
    decreases |r|
  {
    hide SkipParen;
    if r[0] == '\\' {
      Tail(r, x, 2);
      SkipDqExtend(r[2..], x, level);
    } else if r[0] == '"' {
    } else if r[0] == '$' && |r| > 1 && r[1] == '(' {
      var q := 2 + SkipParen(r[2..], 1, level + 1);
      Tail(r, x, 2);
      SkipParenExtend(r[2..], x, 1, level + 1);
      Tail(r, x, q);
      SkipDqExtend(r[q..], x, level);
    } else {
      Tail(r, x, 1);
      SkipDqExtend(r[1..], x, level);
    }
  }

  lemma {:induction false} SkipTickExtend(r: string, x: string)
    requires SkipTick(r) < |r|
    ensures SkipTick(r + x) == SkipTick(r)
    decreases |r|
  {
    if r[0] == '`' {
    } else if r[0] == '\\' {
      Tail(r, x, 2);
      SkipTickExtend(r[2..], x);
    } else {
      Tail(r, x, 1);
      SkipTickExtend(r[1..], x);
    }
  }

  lemma SubstExtend(r: string, x: string)
    requires r != "" && r != "$" && (Subst(r).Some? ==> Subst(r).value.0 < |r|)
    ensures Subst(r + x) == Subst(r)
  {
    hide SkipParen, SkipTick;
    if r[0] == '$' && r[1] == '(' {
      Tail(r, x, 2);
      SkipParenExtend(r[2..], x, 1, 0);
    } else if r[0] == '`' {
      Tail(r, x, 1);
      SkipTickExtend(r[1..], x);
    }
  }

  lemma PieceExtend(r: string, x: string)
    requires r != "" && QuotedPiece(r).n < |r|
    ensures QuotedPiece(r + x) == QuotedPiece(r)
  {
    hide Subst;
    if !(r[0] == '\\' && |r| > 1) {
      SubstExtend(r, x);
      Tail(r, x, QuotedPiece(r).n);
    }
  }

  /** A closed double quote reads the same whatever follows it. */
  lemma {:induction false} QuotedExtend(r: string, x: string)
    requires Quoted(r).closed
    ensures Quoted(r + x) == Quoted(r)
    decreases |r|
  {
    hide QuotedPiece;
    if r[0] != '"' {
      var p := QuotedPiece(r);
      assert Quoted(r[p.n..]).closed;
      PieceExtend(r, x);
      Tail(r, x, p.n);
      QuotedExtend(r[p.n..], x);
    }
  }
}
