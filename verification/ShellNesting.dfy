/** Nested command substitutions: the scanner finds the bracket that closes a
    `$( )` whatever quotes, escapes, brackets, heredocs and further substitutions
    the text inside holds. */
module ShellNesting {
  import opened Text
  import opened ShellScan
  import opened ShellTok
  import opened ShellQuoting
  import opened ShellCommands

  /** Shell code inside `$( )`, and data inside double quotes. */
  datatype Code =
    | Done
    | Chr(c: char, rest: Code)
    | Esc(c: char, rest: Code)
    | Single(s: string, rest: Code)
    | Group(body: Code, rest: Code)
    | Double(data: Data, rest: Code)
    | Here(sign: Sign, tail: string, lines: seq<string>, last: string, rest: Code)
    | Mark(sign: Sign, rest: Code)

  datatype Data =
    | Closed
    | DChr(c: char, more: Data)
    | DEsc(c: char, more: Data)
    | DSub(code: Code, more: Data)

  /** What stands between `<<` and the end of the delimiter word. */
  datatype Sign = Sign(dash: bool, blanks: string, word: string)

  function SignText(s: Sign): string {
    (if s.dash then "-" else "") + (s.blanks + s.word)
  }

  function Delim(s: Sign): string { Cut(Unquoted(s.word)) }

  /** From past the `<<` to the end of the delimiter line. */
  function HereText(s: Sign, tail: string, lines: seq<string>, last: string): string {
    SignText(s) + (tail + ("\n" + (Joined(lines) + (last + "\n"))))
  }

  function Source(p: Code): string {
    match p
    case Done => ""
    case Chr(c, r) => [c] + Source(r)
    case Esc(c, r) => ['\\', c] + Source(r)
    case Single(s, r) => "'" + (s + ("'" + Source(r)))
    case Group(b, r) => "(" + (Source(b) + (")" + Source(r)))
    case Double(d, r) => "\"" + (DataSource(d) + Source(r))
    case Here(s, tail, lines, last, r) => "<<" + (HereText(s, tail, lines, last) + Source(r))
    case Mark(s, r) => "<<" + (SignText(s) + Source(r))
  }

  /** With the closing quote. */
  function DataSource(d: Data): (s: string)
    ensures s != ""
  {
    match d
    case Closed => "\""
    case DChr(c, m) => [c] + DataSource(m)
    case DEsc(c, m) => ['\\', c] + DataSource(m)
    case DSub(p, m) => "$(" + (Source(p) + (")" + DataSource(m)))
  }

  /** A `<` before this text starts a heredoc. */
  predicate Opens(after: string) {
    |after| >= 2 && after[0] == '<' && after[1] != '<'
  }

  /** The sign is read up to the end of its word when this text follows it. */
  predicate SignEnds(s: Sign, after: string) {
    && (forall i :: 0 <= i < |s.blanks| ==> s.blanks[i] in " \t")
    && (forall i :: 0 <= i < |s.word| ==> !DelimStop(s.word[i]))
    && after != "" && DelimStop(after[0]) && (s.word == "" ==> after[0] !in " \t")
    && (s.dash || (s.blanks + (s.word + after))[0] !in "-<")
  }

  /** A heredoc with its lines and the line that ends it. */
  predicate HereEnds(s: Sign, tail: string, lines: seq<string>, last: string) {
    && Delim(s) != "" && SignEnds(s, tail + "\n") && '\n' !in tail
    && BodyLines(lines, Delim(s)) && '\n' !in last && IsDelim(last, Delim(s))
  }

  /** Every character and heredoc is what it says, given the bracket that closes
      the code: the reading is the scanner's. */
  predicate Plain(p: Code) {
    match p
    case Done => true
    case Chr(c, r) => c !in "\\'\"()" && (c == '<' ==> !Opens(Source(r) + ")")) && Plain(r)
    case Esc(_, r) => Plain(r)
    case Single(s, r) => '\'' !in s && Plain(r)
    case Group(b, r) => Plain(b) && Plain(r)
    case Double(d, r) => PlainData(d) && Plain(r)
    case Here(s, tail, lines, last, r) => HereEnds(s, tail, lines, last) && Plain(r)
    case Mark(s, r) => Delim(s) == "" && SignEnds(s, Source(r) + ")") && Plain(r)
  }

  predicate PlainData(d: Data) {
    match d
    case Closed => true
    case DChr(c, m) => c !in "\\\"" && (c == '$' ==> DataSource(m)[0] != '(') && PlainData(m)
    case DEsc(_, m) => PlainData(m)
    case DSub(p, m) => Plain(p) && PlainData(m)
  }

  function Max(a: nat, b: nat): nat { if a < b then b else a }

  /** How deep double quotes with substitutions nest. */
  function Depth(p: Code): nat {
    match p
    case Done => 0
    case Chr(_, r) => Depth(r)
    case Esc(_, r) => Depth(r)
    case Single(_, r) => Depth(r)
    case Group(b, r) => Max(Depth(b), Depth(r))
    case Double(d, r) => Max(DataDepth(d), Depth(r))
    case Here(_, _, _, _, r) => Depth(r)
    case Mark(_, r) => Depth(r)
  }

  function DataDepth(d: Data): nat {
    match d
    case Closed => 0
    case DChr(_, m) => DataDepth(m)
    case DEsc(_, m) => DataDepth(m)
    case DSub(p, m) => Max(1 + Depth(p), DataDepth(m))
  }

  /* ---- the scanner, one item at a time ------------------------------------------------ */

  lemma OverChar(c: char, x: string, depth: nat, level: nat)
    requires level <= MAX_LEVEL && c !in "\\'\"()" && (c == '<' ==> !Opens(x))
    ensures SkipParen([c] + x, depth, level) == 1 + SkipParen(x, depth, level)
  {
    var r := [c] + x;
    assert r[1..] == x;
    assert |r| > 2 ==> r[1] == x[0] && r[2] == x[1];
  }

  lemma {:induction false} SkipBlanksThrough(b: string, x: string)
    requires (forall i :: 0 <= i < |b| ==> b[i] in " \t") && (x == "" || x[0] !in " \t")
    ensures SkipBlanks(b + x) == |b|
    decreases |b|
  {
    if b == "" {
      assert b + x == x;
    } else {
      assert (b + x)[1..] == b[1..] + x;
      SkipBlanksThrough(b[1..], x);
    }
  }

  lemma {:induction false} DelimLenThrough(w: string, x: string)
    requires (forall i :: 0 <= i < |w| ==> !DelimStop(w[i])) && x != "" && DelimStop(x[0])
    ensures DelimLen(w + x) == |w|
    decreases |w|
  {
    if w == "" {
      assert w + x == x;
    } else {
      assert (w + x)[1..] == w[1..] + x;
      DelimLenThrough(w[1..], x);
    }
  }

  /** The delimiter word is read as written. */
  lemma ReadSign(s: Sign, x: string)
    requires SignEnds(s, x)
    ensures var r := s.blanks + (s.word + x);
            ParseDelim(r) == (|s.blanks| + |s.word|, Delim(s)) && r[|s.blanks| + |s.word|..] == x
  {
    hide SkipBlanks, DelimLen, DelimStop, Unquoted, Cut;
    var t := s.word + x;
    assert t[0] == if s.word != "" then s.word[0] else x[0];
    BlankStops(t[0]);
    SkipBlanksThrough(s.blanks, t);
    DelimLenThrough(s.word, x);
    Parts(s.blanks, s.word, x);
  }

  lemma BlankStops(c: char)
    ensures c in " \t" ==> DelimStop(c)
  {
  }

  lemma Parts(a: string, b: string, c: string)
    ensures var r := a + (b + c);
            r[|a|..] == b + c && r[|a|..|a| + |b|] == b && r[|a| + |b|..] == c
  {
  }

  /** A sign of its own, without a delimiter, is passed over alone. */
  lemma SkipMark(s: Sign, x: string)
    requires SignEnds(s, x) && Delim(s) == ""
    ensures SkipHeredoc(SignText(s) + x) == |SignText(s)|
  {
    hide ParseDelim, Delim, SignEnds;
    ReadSign(s, x);
    SignSplit(s, x);
  }

  lemma SignSplit(s: Sign, x: string)
    requires SignEnds(s, x)
    ensures var r, d := SignText(s) + x, if s.dash then 1 else 0;
            && (if r != "" && r[0] == '-' then 1 else 0) == d
            && r[d..] == s.blanks + (s.word + x) && |SignText(s)| == d + |s.blanks| + |s.word|
  {
    var bare := s.blanks + s.word;
    var y := s.blanks + (s.word + x);
    Assoc(s.blanks, s.word, x);
    Assoc("-", bare, x);
    assert "" + bare == bare;
    assert s.dash ==> ("-" + y)[1..] == y;
  }

  /** A heredoc is passed over through its delimiter line. */
  lemma SkipHere(s: Sign, tail: string, lines: seq<string>, last: string, x: string)
    requires HereEnds(s, tail, lines, last)
    ensures SkipHeredoc(HereText(s, tail, lines, last) + x) == |HereText(s, tail, lines, last)|
  {
    hide ParseDelim, Delim, SignEnds, HeredocBody, Joined, IsDelim, SignText, BodyLines, Span, SkipHeredocWord,
      HereText;
    var body := Joined(lines) + (last + ("\n" + x));
    var line := tail + ("\n" + body);
    HereSplit(s, tail, lines, last, x);
    SignEndsMore(s, tail + "\n", line);
    SignSplit(s, line);
    ReadSign(s, line);
    LineAt(tail, body);
    ReadBody(lines, last, Delim(s), x);
    WordThenBody(s.blanks + (s.word + line), |s.blanks| + |s.word|, Delim(s), tail, body);
  }

  lemma WordThenBody(r: string, w: nat, d: string, tail: string, body: string)
    requires ParseDelim(r) == (w, d) && d != "" && w <= |r| && r[w..] == tail + ("\n" + body)
    requires Span(r[w..], '\n') == |tail|
    ensures SkipHeredocWord(r) == w + |tail| + 1 + HeredocBody(body, d).next
  {
    hide ParseDelim, HeredocBody, Span;
    var t := r[w..];
    assert t[|tail| + 1..] == body;
    assert r[w + |tail| + 1..] == t[|tail| + 1..];
  }

  lemma SignEndsMore(s: Sign, x: string, y: string)
    requires SignEnds(s, x) && y != "" && y[0] == x[0]
    ensures SignEnds(s, y)
  {
    var a, b := s.blanks + (s.word + x), s.blanks + (s.word + y);
    assert a[0] == b[0];
  }

  lemma HereSplit(s: Sign, tail: string, lines: seq<string>, last: string, x: string)
    ensures HereText(s, tail, lines, last) + x == SignText(s) + (tail + ("\n" + (Joined(lines) + (last + ("\n" + x)))))
    ensures (tail + "\n")[0] == (tail + ("\n" + (Joined(lines) + (last + ("\n" + x)))))[0]
    ensures |HereText(s, tail, lines, last)| == |SignText(s)| + |tail| + |Joined(lines)| + |last| + 2
  {
    hide SignText, Joined;
    var d := last + "\n";
    var c := Joined(lines) + d;
    var b := "\n" + c;
    var a := tail + b;
    Assoc(SignText(s), a, x);
    Assoc(tail, b, x);
    Assoc("\n", c, x);
    Assoc(Joined(lines), d, x);
    Assoc(last, "\n", x);
  }

  /** A heredoc sign and what belongs to it are passed over together. */
  lemma OverHere(h: string, x: string, depth: nat, level: nat)
    requires level <= MAX_LEVEL && SkipHeredoc(h + x) == |h| && h + x != "" && (h + x)[0] != '<'
    ensures SkipParen("<<" + (h + x), depth, level) == 2 + |h| + SkipParen(x, depth, level)
  {
    hide SkipHeredoc;
    var r := "<<" + (h + x);
    assert r[2..] == h + x && r[2 + |h|..] == x && r[2] == (h + x)[0];
  }

  lemma NotThird(s: Sign, x: string)
    requires SignEnds(s, x)
    ensures SignText(s) + x != "" && (SignText(s) + x)[0] != '<'
  {
    SignSplit(s, x);
    var y := s.blanks + (s.word + x);
    assert s.dash ==> (SignText(s) + x)[0] == '-' by {
      if s.dash { assert SignText(s)[0] == '-'; }
    }
    assert !s.dash ==> SignText(s) + x == y;
  }

  lemma OverEscape(c: char, x: string, depth: nat, level: nat)
    requires level <= MAX_LEVEL
    ensures SkipParen(['\\', c] + x, depth, level) == 2 + SkipParen(x, depth, level)
  {
    assert (['\\', c] + x)[2..] == x;
  }

  lemma OverSingle(s: string, x: string, depth: nat, level: nat)
    requires level <= MAX_LEVEL && '\'' !in s
    ensures SkipParen("'" + (s + ("'" + x)), depth, level) == |s| + 2 + SkipParen(x, depth, level)
  {
    hide Span;
    var t := s + ("'" + x);
    var r := "'" + t;
    assert r[1..] == t && r[|s| + 2..] == x;
    assert t[..|s|] == s;
    SpanFound(t, '\'', |s|);
  }

  lemma OverGroup(x: string, depth: nat, level: nat)
    requires level <= MAX_LEVEL && depth >= 1
    ensures SkipParen("(" + x, depth, level) == 1 + SkipParen(x, depth + 1, level)
    ensures SkipParen(")" + x, depth + 1, level) == 1 + SkipParen(x, depth, level)
  {
    assert ("(" + x)[1..] == x && (")" + x)[1..] == x;
  }

  lemma OverDouble(d: string, x: string, depth: nat, level: nat)
    requires level <= MAX_LEVEL && SkipDq(d + x, level + 1) == |d|
    ensures SkipParen("\"" + (d + x), depth, level) == 1 + |d| + SkipParen(x, depth, level)
  {
    hide SkipDq;
    var r := "\"" + (d + x);
    assert r[1..] == d + x && r[1 + |d|..] == x;
  }

  lemma OverData(c: char, x: string, level: nat)
    requires c !in "\\\"" && x != "" && (c == '$' ==> x[0] != '(')
    ensures SkipDq([c] + x, level) == 1 + SkipDq(x, level)
  {
    var r := [c] + x;
    assert r[1..] == x && r[1] == x[0];
  }

  lemma OverSub(p: string, x: string, level: nat)
    requires SkipParen(p + (")" + x), 1, level + 1) == |p| + 1
    ensures SkipDq("$(" + (p + (")" + x)), level) == |p| + 3 + SkipDq(x, level)
  {
    hide SkipParen;
    var r := "$(" + (p + (")" + x));
    assert r[2..] == p + (")" + x) && r[|p| + 3..] == x;
  }

  /** The scanner passes over the code before a closing bracket as a whole. */
  lemma {:induction false} SkipCode(p: Code, x: string, depth: nat, level: nat)
    requires Plain(p) && level + 2 * Depth(p) <= MAX_LEVEL && depth >= 1 && x != "" && x[0] == ')'
    ensures SkipParen(Source(p) + x, depth, level) == |Source(p)| + SkipParen(x, depth, level)
    decreases p
  {
    hide SkipParen, SkipDq, SkipHeredoc, SignText, SignEnds, HereEnds, HereText, Opens, Delim;
    match p
    case Done =>
      assert "" + x == x;
    case Chr(c, q) =>
      Assoc([c], Source(q), x);
      Ahead(Source(q), x);
      OverChar(c, Source(q) + x, depth, level);
      SkipCode(q, x, depth, level);
    case Esc(c, q) =>
      Assoc(['\\', c], Source(q), x);
      OverEscape(c, Source(q) + x, depth, level);
      SkipCode(q, x, depth, level);
    case Single(s, q) =>
      var t := Source(q);
      Assoc("'", s + ("'" + t), x);
      Assoc(s, "'" + t, x);
      Assoc("'", t, x);
      OverSingle(s, t + x, depth, level);
      SkipCode(q, x, depth, level);
    case Group(b, q) =>
      var g, t := Source(b), Source(q);
      Assoc("(", g + (")" + t), x);
      Assoc(g, ")" + t, x);
      Assoc(")", t, x);
      OverGroup(g + (")" + (t + x)), depth, level);
      SkipCode(b, ")" + (t + x), depth + 1, level);
      OverGroup(t + x, depth, level);
      SkipCode(q, x, depth, level);
    case Double(d, q) =>
      var g, t := DataSource(d), Source(q);
      Assoc("\"", g + t, x);
      Assoc(g, t, x);
      SkipData(d, t + x, level + 1);
      OverDouble(g, t + x, depth, level);
      SkipCode(q, x, depth, level);
    case Here(s, tail, lines, last, q) =>
      var h, t := HereText(s, tail, lines, last), Source(q);
      Assoc("<<", h + t, x);
      Assoc(h, t, x);
      SkipHere(s, tail, lines, last, t + x);
      HereStarts(s, tail, lines, last, t + x);
      OverHere(h, t + x, depth, level);
      SkipCode(q, x, depth, level);
    case Mark(s, q) =>
      var h, t := SignText(s), Source(q);
      Assoc("<<", h + t, x);
      Assoc(h, t, x);
      Ahead(t, x);
      SignEndsMore(s, t + ")", t + x);
      SkipMark(s, t + x);
      NotThird(s, t + x);
      OverHere(h, t + x, depth, level);
      SkipCode(q, x, depth, level);
  }

  /** The closing bracket is all the look-ahead the code needs. */
  lemma Ahead(t: string, x: string)
    requires x != "" && x[0] == ')'
    ensures (t + x)[0] == (t + ")")[0] && (Opens(t + x) <==> Opens(t + ")"))
  {
    var a, b := t + x, t + ")";
    assert |t| >= 2 ==> a[1] == b[1] == t[1];
    assert |t| == 1 ==> a[1] == b[1] == ')';
    assert t == "" ==> a[0] == b[0] == ')';
  }

  lemma HereStarts(s: Sign, tail: string, lines: seq<string>, last: string, x: string)
    requires HereEnds(s, tail, lines, last)
    ensures HereText(s, tail, lines, last) + x != "" && (HereText(s, tail, lines, last) + x)[0] != '<'
  {
    hide SignText, SignEnds, Joined, IsDelim, BodyLines, Delim;
    var line := tail + ("\n" + (Joined(lines) + (last + ("\n" + x))));
    HereSplit(s, tail, lines, last, x);
    SignEndsMore(s, tail + "\n", line);
    NotThird(s, line);
  }

  lemma {:induction false} SkipData(d: Data, x: string, level: nat)
    requires PlainData(d) && level + 2 * DataDepth(d) <= MAX_LEVEL + 1
    ensures SkipDq(DataSource(d) + x, level) == |DataSource(d)|
    decreases d
  {
    hide SkipParen, SkipDq;
    match d
    case Closed =>
      CloseQuote(x, level);
    case DChr(c, m) =>
      Assoc([c], DataSource(m), x);
      assert (DataSource(m) + x)[0] == DataSource(m)[0];
      OverData(c, DataSource(m) + x, level);
      SkipData(m, x, level);
    case DEsc(c, m) =>
      Assoc(['\\', c], DataSource(m), x);
      EscapedData(c, DataSource(m) + x, level);
      SkipData(m, x, level);
    case DSub(p, m) =>
      var g, t := Source(p), DataSource(m);
      Assoc("$(", g + (")" + t), x);
      Assoc(g, ")" + t, x);
      Assoc(")", t, x);
      SkipCode(p, ")" + (t + x), 1, level + 1);
      CloseParen(")" + (t + x), level + 1);
      OverSub(g, t + x, level);
      SkipData(m, x, level);
  }

  lemma CloseQuote(x: string, level: nat)
    ensures SkipDq("\"" + x, level) == 1
  {
  }

  lemma EscapedData(c: char, x: string, level: nat)
    ensures SkipDq(['\\', c] + x, level) == 2 + SkipDq(x, level)
  {
    assert (['\\', c] + x)[2..] == x;
  }

  lemma CloseParen(close: string, level: nat)
    requires close != "" && close[0] == ')' && level <= MAX_LEVEL
    ensures SkipParen(close, 1, level) == 1
  {
  }

  /** For all code up to six levels of quoted substitutions: in double quotes the
      substitution is data of the word, and what is recorded for scanning is
      exactly the code between the brackets. */
  lemma SubstitutionRecorded(p: Code)
    requires Plain(p) && 2 * Depth(p) <= MAX_LEVEL && p != Done
    ensures Tokenize("\"$(" + (Source(p) + ")\"")) == Command(["$(" + Source(p) + ")"]).(subs := [Sub(3, |Source(p)|)])
  {
    hide Run, Quoted, SkipParen, Step, Source, Plain, Depth;
    var c := Source(p);
    var r := "\"$(" + (c + ")\"");
    var s := r[1..];
    var close := ")" + "\"";
    SkipCode(p, close, 1, 0);
    CloseParen(close, 0);
    assert s == "$(" + (c + close) && s[2..] == c + close && s[|c| + 2] == ')';
    assert r == "\"" + ("$(" + c + ")") + "\"";
    NotEmpty(p);
    OneSubst(r, "$(" + c + ")", c, 2);
  }

  lemma NotEmpty(p: Code)
    requires p != Done
    ensures Source(p) != ""
  {
  }
}
