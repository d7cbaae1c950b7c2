/** The texts a `$( )` can hold: exactly the code of ShellNesting, found back from
    the text, and the one form the scanner reads past. */
module ShellRegions {
  import opened Text
  import opened ShellScan
  import opened ShellCommands
  import opened ShellNesting

  /* ---- heredocs found back ---------------------------------------------------------------- */

  lemma {:induction false} BlanksAre(r: string)
    ensures forall i :: 0 <= i < SkipBlanks(r) ==> r[i] in " \t"
    ensures SkipBlanks(r) < |r| ==> r[SkipBlanks(r)] !in " \t"
    decreases |r|
  {
    if r != "" && (r[0] == ' ' || r[0] == '\t') {
      BlanksAre(r[1..]);
      forall i | 0 <= i < SkipBlanks(r) ensures r[i] in " \t" {
        if i > 0 { assert r[i] == r[1..][i - 1]; }
      }
    }
  }

  lemma {:induction false} WordIs(r: string)
    ensures forall i :: 0 <= i < DelimLen(r) ==> !DelimStop(r[i])
    decreases |r|
  {
    hide DelimStop;
    if r != "" && !DelimStop(r[0]) {
      WordIs(r[1..]);
      forall i | 0 <= i < DelimLen(r) ensures !DelimStop(r[i]) {
        if i > 0 { assert r[i] == r[1..][i - 1]; }
      }
    }
  }

  /** The sign that was read. */
  lemma SignOf(h: string) returns (s: Sign, x: string)
    requires h != "" && h[0] != '<'
    requires var y := h[if h[0] == '-' then 1 else 0..]; ParseDelim(y).0 < |y|
    ensures h == SignText(s) + x && SignEnds(s, x)
    ensures var dash := if h[0] == '-' then 1 else 0;
            var y := h[dash..];
            ParseDelim(y).1 == Delim(s) && y[ParseDelim(y).0..] == x && |SignText(s)| == dash + ParseDelim(y).0
  {
    hide SkipBlanks, DelimLen, Unquoted, Cut, DelimStop, SignEnds, SignText;
    var dash := h[0] == '-';
    var y := h[if dash then 1 else 0..];
    assert !dash ==> y == h;
    var b := SkipBlanks(y);
    var w := b + DelimLen(y[b..]);
    s := Sign(dash, y[..b], y[b..w]);
    x := y[w..];
    Cut3(y, b, w);
    WordEnds(s, y, b, w);
    SignSplit(s, x);
    SignWhole(s, x, h);
  }

  lemma Cut3(y: string, b: nat, w: nat)
    requires b <= w <= |y|
    ensures y == y[..b] + (y[b..w] + y[w..]) && y[b..][..w - b] == y[b..w]
  {
  }

  lemma WordEnds(s: Sign, y: string, b: nat, w: nat)
    requires b == SkipBlanks(y) && w == b + DelimLen(y[b..]) && w < |y|
    requires s.blanks == y[..b] && s.word == y[b..w] && y == s.blanks + (s.word + y[w..])
    requires s.dash || y[0] !in "-<"
    ensures SignEnds(s, y[w..])
  {
    hide SkipBlanks, DelimLen, DelimStop;
    BlanksAre(y);
    WordIs(y[b..]);
    forall i | 0 <= i < |s.word| ensures !DelimStop(s.word[i]) { assert s.word[i] == y[b..][i]; }
    assert y[w..][0] == y[b..][w - b];
  }

  lemma SignWhole(s: Sign, x: string, h: string)
    requires SignEnds(s, x) && h != "" && s.dash == (h[0] == '-')
      && h[if s.dash then 1 else 0..] == s.blanks + (s.word + x)
    ensures h == SignText(s) + x
  {
    hide SignEnds;
    var bare := s.blanks + s.word;
    Assoc(s.blanks, s.word, x);
    if s.dash {
      assert h == "-" + h[1..];
      Assoc("-", bare, x);
    } else {
      assert h[0..] == h && "" + bare == bare;
    }
  }

  /** The lines of a body, and the line that ended it. */
  lemma {:induction false} BodyOf(r: string, d: string) returns (lines: seq<string>, last: string)
    requires HeredocBody(r, d).end == Terminated
    ensures BodyLines(lines, d) && '\n' !in last && IsDelim(last, d)
    ensures HeredocBody(r, d).next == |Joined(lines)| + |last| + 1
    ensures r == Joined(lines) + (last + ("\n" + r[HeredocBody(r, d).next..]))
    decreases |r|
  {
    hide IsDelim, Span, Joined, BodyLines, HeredocBody;
    var eol := Span(r, '\n');
    BodyStep(r, d);
    LineOf(r);
    var l, more := r[..eol], r[eol + 1..];
    if IsDelim(l, d) {
      lines, last := [], l;
      NoLines(d, last + ("\n" + more));
    } else {
      var ls;
      ls, last := BodyOf(more, d);
      lines := [l] + ls;
      OneMore(l, ls, d);
      LineAdded(r, l, more, HeredocBody(more, d).next, Joined(ls), last);
    }
  }

  lemma BodyStep(r: string, d: string)
    requires HeredocBody(r, d).end == Terminated
    ensures var eol, n := Span(r, '\n'), HeredocBody(r, d).next;
            && eol < |r|
            && if IsDelim(r[..eol], d) then n == eol + 1 else
               HeredocBody(r[eol + 1..], d).end == Terminated && n == eol + 1 + HeredocBody(r[eol + 1..], d).next
  {
    hide IsDelim, Span;
  }

  lemma NoLines(d: string, t: string)
    ensures BodyLines([], d) && Joined([]) == "" && Joined([]) + t == t
  {
  }

  lemma OneMore(l: string, ls: seq<string>, d: string)
    requires '\n' !in l && !IsDelim(l, d) && BodyLines(ls, d)
    ensures BodyLines([l] + ls, d) && Joined([l] + ls) == l + ("\n" + Joined(ls))
  {
    hide IsDelim;
    assert ([l] + ls)[1..] == ls;
  }

  lemma LineAdded(r: string, l: string, more: string, n: nat, j: string, last: string)
    requires r == l + ("\n" + more) && n <= |more| && more == j + (last + ("\n" + more[n..]))
    ensures r == l + ("\n" + j) + (last + ("\n" + r[|l| + 1 + n..]))
  {
    var t := last + ("\n" + more[n..]);
    Assoc(l, "\n" + j, t);
    Assoc("\n", j, t);
    Assoc(l, "\n", more);
    assert r[|l| + 1 + n..] == more[n..] by { assert r[|l| + 1..] == more; }
  }

  lemma LineOf(r: string)
    requires Span(r, '\n') < |r|
    ensures var eol := Span(r, '\n'); '\n' !in r[..eol] && r == r[..eol] + ("\n" + r[eol + 1..])
  {
    hide Span;
    SplitAt(r, Span(r, '\n'), "\n");
  }

  lemma SplitAt(r: string, i: nat, c: string)
    requires i < |r| && c == [r[i]]
    ensures r == r[..i] + (c + r[i + 1..])
  {
  }

  /** The heredoc that was read. */
  lemma HereOf(h: string) returns (s: Sign, tail: string, lines: seq<string>, last: string, x: string)
    requires h != "" && h[0] != '<' && SkipHeredoc(h) < |h|
    requires ParseDelim(h[if h[0] == '-' then 1 else 0..]).1 != ""
    ensures HereEnds(s, tail, lines, last) && h == HereText(s, tail, lines, last) + x
  {
    hide ParseDelim, SignEnds, SignText, HeredocBody, IsDelim, Span, Joined, BodyLines, Delim;
    var y := h[if h[0] == '-' then 1 else 0..];
    var line;
    s, line := SignOf(h);
    var eol := Span(line, '\n');
    LineOf(line);
    tail := line[..eol];
    var body := line[eol + 1..];
    assert body == y[ParseDelim(y).0 + eol + 1..];
    lines, last := BodyOf(body, Delim(s));
    x := body[HeredocBody(body, Delim(s)).next..];
    HereSplit(s, tail, lines, last, x);
    SignEndsMore(s, line, tail + "\n");
  }

  /** The mark without a delimiter that was read. */
  lemma MarkOf(h: string) returns (s: Sign, x: string)
    requires h != "" && h[0] != '<' && SkipHeredoc(h) < |h|
    requires ParseDelim(h[if h[0] == '-' then 1 else 0..]).1 == ""
    ensures SignEnds(s, x) && Delim(s) == "" && h == SignText(s) + x
  {
    hide ParseDelim, SignEnds, SignText, Delim;
    s, x := SignOf(h);
  }

  /* ---- code and data found back ------------------------------------------------------------- */

  /** r is this code before a closing bracket at the given level. */
  ghost predicate Reads(r: string, p: Code, x: string, level: nat) {
    && Plain(p) && level + 2 * Depth(p) <= MAX_LEVEL
    && r == Source(p) + x && x != "" && x[0] == ')'
  }

  lemma ReadsEsc(r: string, q: Code, x: string, level: nat)
    requires |r| >= 2 && r[0] == '\\' && Reads(r[2..], q, x, level)
    ensures Reads(r, Esc(r[1], q), x, level)
  {
    hide Plain;
    Assoc(['\\', r[1]], Source(q), x);
    assert Plain(q) ==> Plain(Esc(r[1], q)) by { PlainEsc(r[1], q); }
  }

  lemma PlainEsc(c: char, q: Code)
    ensures Plain(q) ==> Plain(Esc(c, q))
  {
  }

  lemma ReadsSingle(r: string, n: nat, q: Code, x: string, level: nat)
    requires r != "" && r[0] == '\'' && n == Span(r[1..], '\'') && n + 1 < |r| && Reads(r[n + 2..], q, x, level)
    ensures Reads(r, Single(r[1..][..n], q), x, level)
  {
    hide Span;
    var s := r[1..][..n];
    SingleOf(r, n);
    Assoc("'", s + ("'" + Source(q)), x);
    Assoc(s, "'" + Source(q), x);
    Assoc("'", Source(q), x);
  }

  lemma ReadsDouble(r: string, d: Data, y: string, q: Code, x: string, level: nat)
    requires r != "" && r[0] == '"' && r[1..] == DataSource(d) + y && Reads(y, q, x, level)
    requires PlainData(d) && level + 1 + 2 * DataDepth(d) <= MAX_LEVEL + 1
    ensures Reads(r, Double(d, q), x, level)
  {
    hide Plain, Depth, Source, PlainData, DataDepth, DataSource;
    DoubleIs(d, q);
    var quote := "\"";
    assert r == quote + r[1..];
    Assoc(DataSource(d), Source(q), x);
    Assoc(quote, DataSource(d) + Source(q), x);
  }

  lemma DoubleIs(d: Data, q: Code)
    ensures Plain(Double(d, q)) <==> PlainData(d) && Plain(q)
    ensures Depth(Double(d, q)) == Max(DataDepth(d), Depth(q))
    ensures Source(Double(d, q)) == "\"" + (DataSource(d) + Source(q))
  {
  }

  lemma ReadsGroup(r: string, b: Code, y: string, q: Code, x: string, level: nat)
    requires r != "" && r[0] == '(' && Reads(r[1..], b, y, level) && Reads(y[1..], q, x, level)
    ensures Reads(r, Group(b, q), x, level)
  {
    hide Plain, Depth, Source;
    GroupIs(b, q);
    var open, close := "(", ")";
    assert y == close + y[1..] && r == open + r[1..];
    Assoc(Source(b), close + Source(q), x);
    Assoc(close, Source(q), x);
    Assoc(open, Source(b) + (close + Source(q)), x);
  }

  lemma GroupIs(b: Code, q: Code)
    ensures Plain(Group(b, q)) <==> Plain(b) && Plain(q)
    ensures Depth(Group(b, q)) == Max(Depth(b), Depth(q))
    ensures Source(Group(b, q)) == "(" + (Source(b) + (")" + Source(q)))
  {
  }

  lemma ReadsChr(r: string, q: Code, x: string, level: nat)
    requires r != "" && r[0] !in "\\'\"()" && (r[0] == '<' ==> !(|r| > 2 && r[1] == '<' && r[2] != '<'))
    requires Reads(r[1..], q, x, level)
    ensures Reads(r, Chr(r[0], q), x, level)
  {
    hide Opens;
    Assoc([r[0]], Source(q), x);
    Ahead(Source(q), x);
    OpensAt(r);
  }

  /** The code before the bracket that closes this depth. */
  lemma {:induction false} CodeOf(r: string, depth: nat, level: nat) returns (p: Code, x: string)
    requires depth >= 1 && SkipParen(r, depth, level) < |r|
    ensures Reads(r, p, x, level)
    decreases |r|, 1
  {
    hide Span, SkipHeredoc, SkipDq, Reads;
    var q;
    if r[0] == '\\' {
      q, x := CodeOf(r[2..], depth, level);
      p := Esc(r[1], q);
      ReadsEsc(r, q, x, level);
    } else if r[0] == '\'' {
      var n := Span(r[1..], '\'');
      q, x := CodeOf(r[n + 2..], depth, level);
      p := Single(r[1..][..n], q);
      ReadsSingle(r, n, q, x, level);
    } else if r[0] == '"' {
      p, x := DoubleOf(r, depth, level);
    } else if r[0] == '<' && |r| > 2 && r[1] == '<' && r[2] != '<' {
      p, x := HeredocOf(r, depth, level);
    } else if r[0] == '(' {
      p, x := GroupOf(r, depth, level);
    } else if r[0] == ')' {
      p, x := Done, r;
      ReadsDone(r, level);
    } else {
      q, x := CodeOf(r[1..], depth, level);
      p := Chr(r[0], q);
      ReadsChr(r, q, x, level);
    }
  }

  lemma ReadsDone(r: string, level: nat)
    requires r != "" && r[0] == ')' && level <= MAX_LEVEL
    ensures Reads(r, Done, r, level)
  {
    assert "" + r == r;
  }

  lemma {:induction false} DoubleOf(r: string, depth: nat, level: nat) returns (p: Code, x: string)
    requires r != "" && r[0] == '"' && depth >= 1 && SkipParen(r, depth, level) < |r|
    ensures Reads(r, p, x, level)
    decreases |r|, 0
  {
    hide SkipParen, SkipDq, Reads, PlainData, DataDepth, DataSource;
    DoubleStep(r, depth, level);
    var d, y := DataOf(r[1..], level + 1);
    assert ReadsData(r[1..], d, y, level + 1);
    SkipData(d, y, level + 1);
    var n := |DataSource(d)|;
    assert r[1 + n..] == y by { assert r[1..][n..] == y; }
    var q;
    q, x := CodeOf(y, depth, level);
    p := Double(d, q);
    ReadsDouble(r, d, y, q, x, level);
  }

  lemma DoubleStep(r: string, depth: nat, level: nat)
    requires r != "" && r[0] == '"' && SkipParen(r, depth, level) < |r|
    ensures level <= MAX_LEVEL
    ensures var q := 1 + SkipDq(r[1..], level + 1);
            q <= |r| && SkipParen(r, depth, level) == q + SkipParen(r[q..], depth, level)
  {
    hide SkipDq, Span, SkipHeredoc;
  }

  lemma {:induction false} GroupOf(r: string, depth: nat, level: nat) returns (p: Code, x: string)
    requires r != "" && r[0] == '(' && depth >= 1 && SkipParen(r, depth, level) < |r|
    ensures Reads(r, p, x, level)
    decreases |r|, 0
  {
    hide SkipDq, SkipHeredoc, Span, Plain, Depth, Source;
    var b, y := CodeOf(r[1..], depth + 1, level);
    SkipCode(b, y, depth + 1, level);
    OverGroup(y[1..], depth, level);
    assert y == ")" + y[1..];
    var q;
    q, x := CodeOf(y[1..], depth, level);
    p := Group(b, q);
    ReadsGroup(r, b, y, q, x, level);
  }

  lemma OpensAt(r: string)
    requires r != ""
    ensures Opens(r[1..]) <==> |r| > 2 && r[1] == '<' && r[2] != '<'
  {
  }

  lemma SingleOf(r: string, n: nat)
    requires r != "" && r[0] == '\'' && n == Span(r[1..], '\'') && n + 1 < |r|
    ensures '\'' !in r[1..][..n] && r == "'" + (r[1..][..n] + ("'" + r[n + 2..]))
  {
    assert r[1..][n] == '\'';
    assert r[n + 1] == '\'';
  }

  lemma {:induction false} HeredocOf(r: string, depth: nat, level: nat) returns (p: Code, x: string)
    requires |r| > 2 && r[0] == '<' && r[1] == '<' && r[2] != '<'
    requires depth >= 1 && SkipParen(r, depth, level) < |r|
    ensures Reads(r, p, x, level)
    decreases |r|, 0
  {
    hide SkipHeredoc, SkipDq, Span, SignEnds, SignText, HereEnds, HereText, Delim, ParseDelim, Reads;
    var h := r[2..];
    assert r == "<<" + h && h[0] == r[2];
    var n := SkipHeredoc(h);
    var y := h[n..];
    assert r[2 + n..] == y;
    var q;
    q, x := CodeOf(y, depth, level);
    if ParseDelim(h[if h[0] == '-' then 1 else 0..]).1 == "" {
      var s, z := MarkOf(h);
      SkipMark(s, z);
      assert z == y by { assert h[|SignText(s)|..] == z; }
      p := Mark(s, q);
      ReadsMark(r, s, y, q, x, level);
    } else {
      var s, tail, lines, last, z := HereOf(h);
      SkipHere(s, tail, lines, last, z);
      assert z == y by { assert h[|HereText(s, tail, lines, last)|..] == z; }
      p := Here(s, tail, lines, last, q);
      ReadsHere(r, s, tail, lines, last, y, q, x, level);
    }
  }

  lemma ReadsMark(r: string, s: Sign, y: string, q: Code, x: string, level: nat)
    requires r == "<<" + (SignText(s) + y) && SignEnds(s, y) && Delim(s) == "" && Reads(y, q, x, level)
    ensures Reads(r, Mark(s, q), x, level)
  {
    hide SignEnds, SignText, Delim, Opens;
    Ahead(Source(q), x);
    SignEndsMore(s, y, Source(q) + ")");
    Assoc(SignText(s), Source(q), x);
    Assoc("<<", SignText(s) + Source(q), x);
  }

  lemma ReadsHere(r: string, s: Sign, tail: string, lines: seq<string>, last: string, y: string, q: Code, x: string,
                  level: nat)
    requires r == "<<" + (HereText(s, tail, lines, last) + y) && HereEnds(s, tail, lines, last)
    requires Reads(y, q, x, level)
    ensures Reads(r, Here(s, tail, lines, last, q), x, level)
  {
    hide HereEnds, HereText;
    Assoc(HereText(s, tail, lines, last), Source(q), x);
    Assoc("<<", HereText(s, tail, lines, last) + Source(q), x);
  }

  /** r is this data, with its closing quote, at the given level. */
  ghost predicate ReadsData(r: string, d: Data, x: string, level: nat) {
    PlainData(d) && level + 2 * DataDepth(d) <= MAX_LEVEL + 1 && r == DataSource(d) + x
  }

  lemma ReadsDEsc(r: string, m: Data, x: string, level: nat)
    requires |r| >= 2 && r[0] == '\\' && ReadsData(r[2..], m, x, level)
    ensures ReadsData(r, DEsc(r[1], m), x, level)
  {
    Assoc(['\\', r[1]], DataSource(m), x);
  }

  lemma ReadsDChr(r: string, m: Data, x: string, level: nat)
    requires r != "" && r[0] !in "\\\"" && (r[0] == '$' ==> |r| < 2 || r[1] != '(') && ReadsData(r[1..], m, x, level)
    ensures ReadsData(r, DChr(r[0], m), x, level)
  {
    Assoc([r[0]], DataSource(m), x);
    assert r[1] == r[1..][0] == DataSource(m)[0];
  }

  lemma ReadsDSub(r: string, p: Code, y: string, m: Data, x: string, level: nat)
    requires |r| > 2 && r[0] == '$' && r[1] == '(' && Reads(r[2..], p, y, level + 1) && ReadsData(y[1..], m, x, level)
    ensures ReadsData(r, DSub(p, m), x, level)
  {
    hide Plain, Depth, Source, PlainData, DataDepth, DataSource;
    SubIs(p, m);
    var open, close := "$(", ")";
    assert r == open + r[2..] && y == close + y[1..];
    Assoc(Source(p), close + DataSource(m), x);
    Assoc(close, DataSource(m), x);
    Assoc(open, Source(p) + (close + DataSource(m)), x);
  }

  lemma SubIs(p: Code, m: Data)
    ensures PlainData(DSub(p, m)) <==> Plain(p) && PlainData(m)
    ensures DataDepth(DSub(p, m)) == Max(1 + Depth(p), DataDepth(m))
    ensures DataSource(DSub(p, m)) == "$(" + (Source(p) + (")" + DataSource(m)))
  {
  }

  /** The data before the quote that closes it. */
  lemma {:induction false} DataOf(r: string, level: nat) returns (d: Data, x: string)
    requires SkipDq(r, level) < |r| && level <= MAX_LEVEL + 1
    ensures ReadsData(r, d, x, level)
    decreases |r|, 1
  {
    hide SkipParen, ReadsData;
    var m;
    if r[0] == '\\' {
      m, x := DataOf(r[2..], level);
      d := DEsc(r[1], m);
      ReadsDEsc(r, m, x, level);
    } else if r[0] == '"' {
      d, x := Closed, r[1..];
      ReadsClosed(r, level);
    } else if r[0] == '$' && |r| > 1 && r[1] == '(' {
      d, x := SubOfData(r, level);
    } else {
      m, x := DataOf(r[1..], level);
      d := DChr(r[0], m);
      ReadsDChr(r, m, x, level);
    }
  }

  lemma ReadsClosed(r: string, level: nat)
    requires r != "" && r[0] == '"' && level <= MAX_LEVEL + 1
    ensures ReadsData(r, Closed, r[1..], level)
  {
  }

  lemma {:induction false} SubOfData(r: string, level: nat) returns (d: Data, x: string)
    requires |r| > 1 && r[0] == '$' && r[1] == '(' && SkipDq(r, level) < |r| && level <= MAX_LEVEL + 1
    ensures ReadsData(r, d, x, level)
    decreases |r|, 0
  {
    hide SkipParen, SkipDq, ReadsData, Plain, Depth, Source;
    SubStep(r, level);
    var p, y := CodeOf(r[2..], 1, level + 1);
    SkipCode(p, y, 1, level + 1);
    CloseParen(y, level + 1);
    var n := |Source(p)|;
    assert r[n + 3..] == y[1..] by { assert r[2..][n..] == y; }
    var m;
    m, x := DataOf(y[1..], level);
    d := DSub(p, m);
    ReadsDSub(r, p, y, m, x, level);
  }

  lemma SubStep(r: string, level: nat)
    requires |r| > 1 && r[0] == '$' && r[1] == '('
    ensures var q := 2 + SkipParen(r[2..], 1, level + 1);
            q <= |r| && SkipDq(r, level) == q + SkipDq(r[q..], level)
  {
    hide SkipParen;
  }

  /** The text is this code, closed before its end. */
  ghost predicate Region(p: Code, r: string) {
    Plain(p) && 2 * Depth(p) <= MAX_LEVEL && |r| > |Source(p)| + 1 && Source(p) + ")" <= r
  }

  /** For every text after `$(`: the scanner stops before the end exactly if the
      text starts with code and its closing bracket, and it stops right there. */
  lemma RegionIff(r: string)
    ensures SkipParen(r, 1, 0) < |r| <==> exists p :: Region(p, r)
    ensures forall p :: Region(p, r) ==> SkipParen(r, 1, 0) == |Source(p)| + 1
  {
    hide SkipParen, Plain, Depth, Source;
    forall p | Region(p, r) ensures SkipParen(r, 1, 0) == |Source(p)| + 1 {
      var n := |Source(p)|;
      var x := r[n..];
      assert x[0] == (Source(p) + ")")[n];
      assert r[..n] == (Source(p) + ")")[..n] == Source(p);
      assert r == Source(p) + x;
      SkipCode(p, x, 1, 0);
      CloseParen(x, 0);
    }
    if SkipParen(r, 1, 0) < |r| {
      var p, x := CodeOf(r, 1, 0);
      SkipCode(p, x, 1, 0);
      CloseParen(x, 0);
      assert x == ")" + x[1..];
      Assoc(Source(p), ")", x[1..]);
      assert Region(p, r);
    }
  }

  /* ---- here-strings ---------------------------------------------------------------------------- */

  /** A here-string on the last line of the text is taken for a heredoc at its second
      character, and the scanner runs to the end past the closing bracket. */
  lemma HereStringRunsOn(s: Sign, rest: string, depth: nat, level: nat)
    requires SignEnds(s, rest) && Delim(s) != "" && '\n' !in rest && level <= MAX_LEVEL
    ensures var r := "<<<" + (SignText(s) + rest); SkipParen(r, depth, level) == |r|
  {
    hide SkipHeredoc, SignEnds, SignText, Delim, SkipParen;
    var h := SignText(s) + rest;
    NotThird(s, rest);
    NeverEnds(s, rest);
    assert "<<<" + h == "<" + ("<<" + h);
    assert !Opens("<<" + h);
    OverChar('<', "<<" + h, depth, level);
    assert h + "" == h;
    OverHere(h, "", depth, level);
    assert SkipParen("", depth, level) == 0;
  }

  /** Without another line a heredoc takes the rest of the text. */
  lemma NeverEnds(s: Sign, rest: string)
    requires SignEnds(s, rest) && Delim(s) != "" && '\n' !in rest
    ensures SkipHeredoc(SignText(s) + rest) == |SignText(s) + rest|
  {
    hide ParseDelim, SignEnds, SignText, Delim, HeredocBody, Span;
    SignSplit(s, rest);
    ReadSign(s, rest);
    assert rest[..|rest|] == rest;
    SpanFound(rest, '\n', |rest|);
  }
}
