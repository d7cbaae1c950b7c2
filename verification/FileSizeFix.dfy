/** When --fix keeps its promise. The rewrite judges every line that starts with a
    path by the first row with that path, so a repeated path or a path without a
    number can be raised or turned into a row. */
module FileSizeFix {
  import opened Bytes
  import opened Wrappers
  import opened Decimal
  import opened Stdio
  import opened FileSize

  /* ---- one line -------------------------------------------------------------------- */

  /** Some line written in its place carries a higher number. */
  ghost predicate Raised(rows: seq<Row>, files: seq<File>, line: bytes) {
    exists e :: e in EmitLine(rows, files, line) && Parse(e).num > Parse(line).num
  }

  /** The first row with the line's path is to be lowered to a count above the
      line's own number. */
  predicate LowRow(rows: seq<Row>, files: seq<File>, line: bytes) {
    var p := Parse(line);
    var r := if p.path == [] then None else FirstRow(rows, p.path);
    r.Some? && StateOf(r.value, files) == Tightenable && Lookup(files, r.value.path).value > p.num
  }

  /** What the rewrite writes for a line, and how it parses. */
  lemma EmitParses(rows: seq<Row>, files: seq<File>, line: bytes)
    ensures var p := Parse(line);
            var r := if p.path == [] then None else FirstRow(rows, p.path);
            if r.Some? && StateOf(r.value, files) == Tightenable then
              var loc := Lookup(files, r.value.path).value;
              && EmitLine(rows, files, line) == [Print(p.path, loc)] && loc > LIMIT
              && Parse(Print(p.path, loc)) == Parsed(p.path, loc)
            else EmitLine(rows, files, line) == [line] || EmitLine(rows, files, line) == []
  {
    hide Parse, Print, Lookup;
    var p := Parse(line);
    ParsedToken(line);
    FirstRowFound(rows, p.path);
    if p.path != [] && FirstRow(rows, p.path).Some? {
      var r := FirstRow(rows, p.path).value;
      if StateOf(r, files) == Tightenable { PrintedParses(p.path, Lookup(files, r.path).value); }
    }
  }

  /** A line is raised exactly if it meets that condition. */
  lemma RaisedIff(rows: seq<Row>, files: seq<File>, line: bytes)
    ensures Raised(rows, files, line) <==> LowRow(rows, files, line)
  {
    hide Parse, Print, Lookup, EmitLine;
    EmitParses(rows, files, line);
    if LowRow(rows, files, line) {
      var p := Parse(line);
      var e := Print(p.path, Lookup(files, FirstRow(rows, p.path).value.path).value);
      assert e in EmitLine(rows, files, line);
    }
  }

  /* ---- the whole file ----------------------------------------------------------------- */

  predicate Lowered(r: Row, q: Row) { q.path == r.path && q.recorded <= r.recorded }

  /** The rows after are some of the rows before, in order, none with a higher
      number: nothing raised, nothing added. */
  predicate Shrunk(before: seq<Row>, after: seq<Row>) {
    after == []
    || (before != []
        && var rest := before[..|before| - 1];
        (|| Shrunk(rest, after)
         || (Lowered(before[|before| - 1], after[|after| - 1]) && Shrunk(rest, after[..|after| - 1]))))
  }

  lemma ShrunkSkip(before: seq<Row>, after: seq<Row>, gone: seq<Row>)
    requires Shrunk(before, after) && |gone| <= 1
    ensures Shrunk(before + gone, after)
  {
    var all := before + gone;
    if gone == [] {
      assert all == before;
    } else {
      assert all[..|all| - 1] == before;
    }
  }

  lemma ShrunkKeep(before: seq<Row>, after: seq<Row>, r: Row, q: Row)
    requires Shrunk(before, after) && Lowered(r, q)
    ensures Shrunk(before + [r], after + [q])
  {
    var b, a := before + [r], after + [q];
    assert b[..|b| - 1] == before && a[..|a| - 1] == after;
  }

  /** One line that is not raised leaves its row, a lower one or none. */
  lemma LineShrinks(rows: seq<Row>, files: seq<File>, line: bytes, before: seq<Row>, after: seq<Row>)
    requires Shrunk(before, after) && !LowRow(rows, files, line)
    ensures Shrunk(before + RowsOf([line]), after + RowsOf(EmitLine(rows, files, line)))
  {
    hide Parse, Print, Lookup, EmitLine, RowsOf, Shrunk;
    EmitParses(rows, files, line);
    var e, was := EmitLine(rows, files, line), RowsOf([line]);
    RowsOfOne(line);
    RowsNone();
    assert before + [] == before && after + [] == after;
    if e == [] {
      ShrunkSkip(before, after, was);
    } else {
      RowsOfOne(e[0]);
      assert e == [e[0]];
      if was != [] { ShrunkKeep(before, after, was[0], RowsOf(e)[0]); }
    }
  }

  lemma {:induction false} AllShrink(rows: seq<Row>, files: seq<File>, lines: seq<bytes>)
    requires forall i :: 0 <= i < |lines| ==> !LowRow(rows, files, lines[i])
    ensures Shrunk(RowsOf(lines), RowsOf(EmitLines(rows, files, lines)))
  {
    hide LowRow, RowsOf, EmitLine;
    RowsNone();
    if lines != [] {
      var n := |lines| - 1;
      var rest := lines[..n];
      forall i | 0 <= i < n ensures !LowRow(rows, files, rest[i]) { assert rest[i] == lines[i]; }
      AllShrink(rows, files, rest);
      assert lines == rest + [lines[n]];
      RowsOfAppend(rest, [lines[n]]);
      RowsOfAppend(EmitLines(rows, files, rest), EmitLine(rows, files, lines[n]));
      LineShrinks(rows, files, lines[n], RowsOf(rest), RowsOf(EmitLines(rows, files, rest)));
    }
  }

  /* The other way, by counting the rows of one path from a number up. */

  function AtLeast(rows: seq<Row>, path: bytes, n: int): nat {
    if rows == [] then 0
    else
      var r := rows[|rows| - 1];
      AtLeast(rows[..|rows| - 1], path, n) + if r.path == path && r.recorded >= n then 1 else 0
  }

  lemma {:induction false} AtLeastAppend(a: seq<Row>, b: seq<Row>, path: bytes, n: int)
    requires |b| <= 1
    ensures AtLeast(a + b, path, n) == AtLeast(a, path, n) + AtLeast(b, path, n)
  {
    if b == [] {
      assert a + b == a;
    } else {
      assert (a + b)[..|a|] == a && b[..0] == [];
    }
  }

  lemma {:induction false} ShrunkCounts(before: seq<Row>, after: seq<Row>, path: bytes, n: int)
    requires Shrunk(before, after)
    ensures AtLeast(after, path, n) <= AtLeast(before, path, n)
  {
    if after != [] {
      var rest := before[..|before| - 1];
      if Shrunk(rest, after) {
        ShrunkCounts(rest, after, path, n);
      } else {
        ShrunkCounts(rest, after[..|after| - 1], path, n);
      }
    }
  }

  /** The lines whose token is the path. */
  function Tokens(lines: seq<bytes>, path: bytes): nat {
    if lines == [] then 0
    else Tokens(lines[..|lines| - 1], path) + if Parse(lines[|lines| - 1]).path == path then 1 else 0
  }

  /** Where a path's first row is to be lowered, every line with the path becomes
      the lowered row. */
  lemma {:induction false} AllWritten(rows: seq<Row>, files: seq<File>, lines: seq<bytes>, r: Row, n: int)
    requires r.path != [] && FirstRow(rows, r.path) == Some(r) && StateOf(r, files) == Tightenable
    requires n <= Lookup(files, r.path).value
    ensures AtLeast(RowsOf(EmitLines(rows, files, lines)), r.path, n) == Tokens(lines, r.path)
    decreases |lines|
  {
    hide Parse, Print, Lookup, RowsOf, EmitLine;
    RowsNone();
    if lines != [] {
      var k := |lines| - 1;
      AllWritten(rows, files, lines[..k], r, n);
      var e := EmitLine(rows, files, lines[k]);
      var done := EmitLines(rows, files, lines[..k]);
      RowsOfAppend(done, e);
      LineWritten(rows, files, lines[k], r, n);
      AtLeastAppend(RowsOf(done), RowsOf(e), r.path, n);
    }
  }

  lemma LineWritten(rows: seq<Row>, files: seq<File>, line: bytes, r: Row, n: int)
    requires r.path != [] && FirstRow(rows, r.path) == Some(r) && StateOf(r, files) == Tightenable
    requires n <= Lookup(files, r.path).value
    ensures var e := RowsOf(EmitLine(rows, files, line));
            |e| <= 1 && AtLeast(e, r.path, n) == if Parse(line).path == r.path then 1 else 0
  {
    hide Parse, Print, Lookup, RowsOf, EmitLine;
    EmitParses(rows, files, line);
    var e := EmitLine(rows, files, line);
    RowsNone();
    if e != [] {
      assert e == [e[0]];
      RowsOfOne(e[0]);
      ParsedFirst(rows, Parse(line).path);
    }
  }

  lemma ParsedFirst(rows: seq<Row>, path: bytes)
    ensures FirstRow(rows, path).Some? ==> FirstRow(rows, path).value.path == path
  {
    FirstRowFound(rows, path);
  }

  lemma {:induction false} RowsCounted(lines: seq<bytes>, path: bytes, n: int)
    requires path != [] && n > 0
    ensures AtLeast(RowsOf(lines), path, n) <= Tokens(lines, path)
    ensures (exists i :: 0 <= i < |lines| && Parse(lines[i]).path == path && Parse(lines[i]).num < n) ==>
              AtLeast(RowsOf(lines), path, n) < Tokens(lines, path)
  {
    hide Parse, RowsOf;
    RowsNone();
    if lines != [] {
      var k := |lines| - 1;
      var rest := lines[..k];
      RowsCounted(rest, path, n);
      assert lines == rest + [lines[k]];
      RowsOfAppend(rest, [lines[k]]);
      RowsOfOne(lines[k]);
      AtLeastAppend(RowsOf(rest), RowsOf([lines[k]]), path, n);
      AtLeastOne(RowsOf([lines[k]]), path, n);
      if i :| 0 <= i < |lines| && Parse(lines[i]).path == path && Parse(lines[i]).num < n {
        if i < k { assert rest[i] == lines[i]; }
      }
    }
  }

  lemma AtLeastOne(rows: seq<Row>, path: bytes, n: int)
    requires |rows| <= 1
    ensures AtLeast(rows, path, n) == if rows != [] && rows[0].path == path && rows[0].recorded >= n then 1 else 0
  {
    if rows != [] { assert rows[..0] == []; }
  }

  /** --fix raises no number and adds no row exactly if no line meets the condition:
      this decides, before the rewrite, whether the file only shrinks. */
  lemma FixShrinksIff(rows: seq<Row>, files: seq<File>, lines: seq<bytes>)
    ensures Shrunk(RowsOf(lines), RowsOf(EmitLines(rows, files, lines))) <==>
            forall i :: 0 <= i < |lines| ==> !LowRow(rows, files, lines[i])
  {
    hide Parse, Lookup, RowsOf, EmitLines, Shrunk;
    if i :| 0 <= i < |lines| && LowRow(rows, files, lines[i]) {
      var p := Parse(lines[i]);
      ParsedFirst(rows, p.path);
      var r := FirstRow(rows, p.path).value;
      var loc := Lookup(files, r.path).value;
      var before, after := RowsOf(lines), RowsOf(EmitLines(rows, files, lines));
      AllWritten(rows, files, lines, r, loc);
      RowsCounted(lines, r.path, loc);
      if Shrunk(before, after) { ShrunkCounts(before, after, r.path, loc); }
    } else {
      AllShrink(rows, files, lines);
    }
  }

  /** Distinct paths are enough. */
  lemma DistinctShrinks(lines: seq<bytes>, files: seq<File>)
    requires DistinctPaths(lines)
    ensures Shrunk(RowsOf(lines), RowsOf(EmitLines(RowsOf(lines), files, lines)))
  {
    hide Parse, RowsOf, EmitLines, Shrunk, Lookup, DistinctPaths;
    var rows := RowsOf(lines);
    forall i | 0 <= i < |lines| ensures !LowRow(rows, files, lines[i]) {
      OwnRow(lines, i);
      FirstRowFound(rows, Parse(lines[i]).path);
    }
    FixShrinksIff(rows, files, lines);
  }

  /* ---- the two ways it goes wrong ------------------------------------------------------ */

  lemma TwoRewritten(a: bytes, n: nat, second: bytes, loc: nat)
    requires IsToken(a) && LIMIT < loc < n && Parse(second).path == a
    ensures var lines := [Print(a, n), second];
            && RowsOf(lines) == [Row(a, n)] + RowsOf([second])
            && EmitLines(RowsOf(lines), [File(a, loc)], lines) == [Print(a, loc), Print(a, loc)]
            && RowsOf([Print(a, loc), Print(a, loc)]) == [Row(a, loc), Row(a, loc)]
  {
    hide Parse, Print, RowsOf;
    var lines, files := [Print(a, n), second], [File(a, loc)];
    var rows := RowsOf(lines);
    var written := [Print(a, loc), Print(a, loc)];
    PrintedParses(a, n);
    PrintedParses(a, loc);
    RowsFirst(lines);
    assert lines[1..] == [second];
    RowsOfOne(lines[0]);
    RowsFirst(written);
    assert written[1..] == [Print(a, loc)];
    RowsOfOne(Print(a, loc));
    assert rows[0] == Row(a, n);
    assert files[0].path == a && Lookup(files, a) == Some(loc);
    var none: seq<bytes> := [];
    assert lines[..1] == [lines[0]] && lines[..1][..0] == none;
    assert EmitLine(rows, files, lines[0]) == [Print(a, loc)] && EmitLine(rows, files, second) == [Print(a, loc)];
    assert EmitLines(rows, files, none) == none;
    assert EmitLines(rows, files, lines[..1]) == none + [Print(a, loc)] == [Print(a, loc)];
    assert EmitLines(rows, files, lines) == [Print(a, loc)] + [Print(a, loc)];
  }

  /** A second row for a path is rewritten from the first one's verdict, and its
      number goes up. */
  lemma RepeatedPathRaised(a: bytes, n: nat, m: nat, loc: nat)
    requires IsToken(a) && LIMIT < loc < n && 0 < m < loc
    ensures var lines := [Print(a, n), Print(a, m)];
            && RowsOf(lines) == [Row(a, n), Row(a, m)]
            && RowsOf(EmitLines(RowsOf(lines), [File(a, loc)], lines)) == [Row(a, loc), Row(a, loc)]
  {
    hide Parse, Print, RowsOf, EmitLines;
    PrintedParses(a, m);
    RowsOfOne(Print(a, m));
    TwoRewritten(a, n, Print(a, m), loc);
  }

  /** A path alone on its line is no row; next to a row for the path it becomes one. */
  lemma BareTokenAdded(a: bytes, n: nat, loc: nat)
    requires IsToken(a) && LIMIT < loc < n
    ensures var lines := [Print(a, n), a + [10]];
            && RowsOf(lines) == [Row(a, n)]
            && RowsOf(EmitLines(RowsOf(lines), [File(a, loc)], lines)) == [Row(a, loc), Row(a, loc)]
  {
    hide Parse, Print, RowsOf, EmitLines;
    BareParses(a);
    RowsOfOne(a + [10]);
    TwoRewritten(a, n, a + [10], loc);
  }

  lemma BareParses(a: bytes)
    requires IsToken(a)
    ensures Parse(a + [10]) == Parsed(a, 0)
  {
    var line := a + [10];
    forall i | 0 <= i < |line| ensures line[i] != 35 { assert line[i] == if i < |a| then a[i] else 10; }
    CutNothing(line);
    assert line[0] == a[0];
    assert SkipBlank(line) == line;
    TokenSplit(a, [10]);
    assert line[..|a|] == a && line[|a|..] == [10];
    assert SkipBlank([10]) == [10];
    var none: bytes := [];
    assert [10][1..] == none;
    assert SkipSpace([10]) == [];
    assert DigitRun(none) == 0 && none[..0] == none;
    assert Strtol([10]) == 0;
  }

  /* ---- a second run ---------------------------------------------------------------------- */

  lemma {:induction false} FirstRowAppend(a: seq<Row>, b: seq<Row>, path: bytes)
    ensures FirstRow(a + b, path) == if FirstRow(a, path).Some? then FirstRow(a, path) else FirstRow(b, path)
  {
    if a == [] {
      assert a + b == b;
    } else {
      assert (a + b)[1..] == a[1..] + b;
      FirstRowAppend(a[1..], b, path);
    }
  }

  /** The first row a path has in the rewritten file. */
  lemma {:induction false} FirstAfter(rows: seq<Row>, files: seq<File>, lines: seq<bytes>, path: bytes)
    requires path != []
    ensures var before, after := FirstRow(RowsOf(lines), path), FirstRow(RowsOf(EmitLines(rows, files, lines)), path);
            match FirstRow(rows, path)
            case None => after == before
            case Some(r) =>
              match FixRow(r, files)
              case None => after == None
              case Some(q) =>
                if q == r then after == before else if before.Some? then after == Some(q) else after in {None, Some(q)}
  {
    hide Parse, FixRow, RowsOf, FirstRow, EmitLine;
    RowsNone();
    assert FirstRow([], path) == None by { FirstRowIs([], path, 0); }
    if lines != [] {
      var n := |lines| - 1;
      var rest, line := lines[..n], lines[n];
      FirstAfter(rows, files, rest, path);
      assert lines == rest + [line];
      RowsOfAppend(rest, [line]);
      RowsOfAppend(EmitLines(rows, files, rest), EmitLine(rows, files, line));
      FirstRowAppend(RowsOf(rest), RowsOf([line]), path);
      FirstRowAppend(RowsOf(EmitLines(rows, files, rest)), RowsOf(EmitLine(rows, files, line)), path);
      LineFirst(rows, files, line, path);
    }
  }

  lemma LineFirst(rows: seq<Row>, files: seq<File>, line: bytes, path: bytes)
    requires path != []
    ensures var before, after := FirstRow(RowsOf([line]), path), FirstRow(RowsOf(EmitLine(rows, files, line)), path);
            match FirstRow(rows, path)
            case None => after == before
            case Some(r) =>
              match FixRow(r, files)
              case None => after == None
              case Some(q) =>
                if q == r then after == before else if before.Some? then after == Some(q) else after in {None, Some(q)}
  {
    hide Parse, Print, Lookup, RowsOf;
    var e := EmitLine(rows, files, line);
    EmitParses(rows, files, line);
    ParsedFirst(rows, Parse(line).path);
    ParsedFirst(rows, path);
    RowsNone();
    RowsOfOne(line);
    if e != [] {
      assert e == [e[0]];
      RowsOfOne(e[0]);
    }
  }

  /** No line at all is changed by the rows of a rewritten file. */
  lemma SettledLine(lines: seq<bytes>, files: seq<File>, line: bytes)
    ensures var rows := RowsOf(EmitLines(RowsOf(lines), files, lines));
            EmitLine(rows, files, line) == [line] && !Emits(rows, files, line)
  {
    hide Parse, RowsOf, EmitLines, FirstRow, FixRow;
    var path := Parse(line).path;
    if path != [] {
      FirstAfter(RowsOf(lines), files, lines, path);
      ParsedFirst(RowsOf(lines), path);
      if FirstRow(RowsOf(lines), path).Some? { FixAgain(FirstRow(RowsOf(lines), path).value, files); }
    }
  }

  lemma {:induction false} SettledLines(lines: seq<bytes>, files: seq<File>, out: seq<bytes>)
    ensures var rows := RowsOf(EmitLines(RowsOf(lines), files, lines));
            EmitLines(rows, files, out) == out && EmitCount(rows, files, out) == 0
    decreases |out|
  {
    hide RowsOf, EmitLine, Emits;
    if out != [] {
      var n := |out| - 1;
      SettledLines(lines, files, out[..n]);
      SettledLine(lines, files, out[n]);
      assert out == out[..n] + [out[n]];
    }
  }

  /** A second --fix changes nothing, whatever the paths. */
  lemma SecondFix(lines: seq<bytes>, files: seq<File>)
    ensures var out := EmitLines(RowsOf(lines), files, lines);
            EmitLines(RowsOf(out), files, out) == out && EmitCount(RowsOf(out), files, out) == 0
  {
    hide RowsOf, EmitLines, EmitCount;
    SettledLines(lines, files, EmitLines(RowsOf(lines), files, lines));
  }

  /* ---- the verdict after a fix ---------------------------------------------------------------- */

  /** The rows with the path; recorded numbers are positive. */
  function RowCount(rows: seq<Row>, path: bytes): nat { AtLeast(rows, path, 1) }

  ghost predicate Positive(rows: seq<Row>) {
    forall k :: 0 <= k < |rows| ==> rows[k].recorded >= 1
  }

  lemma {:induction false} RowsPositive(lines: seq<bytes>)
    ensures Positive(RowsOf(lines)) && forall k :: 0 <= k < |RowsOf(lines)| ==> RowsOf(lines)[k].path != []
  {
    hide Parse;
    if lines != [] { RowsPositive(lines[1..]); }
  }

  lemma {:induction false} CountFound(rows: seq<Row>, path: bytes)
    requires Positive(rows)
    ensures RowCount(rows, path) >= 1 <==> exists k :: 0 <= k < |rows| && rows[k].path == path
  {
    if rows != [] {
      var n := |rows| - 1;
      var rest := rows[..n];
      CountFound(rest, path);
      if k :| 0 <= k < |rest| && rest[k].path == path { assert rows[k].path == path; }
      if k :| 0 <= k < |rows| && rows[k].path == path {
        if k < n { assert rest[k].path == path; }
      }
    }
  }

  /** A repeated row is a path counted twice. */
  lemma {:induction false} RepeatsIsTwo(rows: seq<Row>)
    requires Positive(rows)
    ensures Repeats(rows) <==> exists path :: RowCount(rows, path) >= 2
  {
    if rows != [] {
      var n := |rows| - 1;
      var rest := rows[..n];
      RepeatsIsTwo(rest);
      CountFound(rest, rows[n].path);
      forall k | 0 <= k < n ensures First(rows, k) <==> First(rest, k) {
        assert forall j :: 0 <= j <= k ==> rest[j] == rows[j];
      }
      if Repeats(rest) {
        var path :| RowCount(rest, path) >= 2;
        assert RowCount(rows, path) >= 2;
      }
      if !First(rows, n) {
        var j :| 0 <= j < n && rows[j].path == rows[n].path;
        assert rest[j].path == rows[n].path;
        assert RowCount(rows, rows[n].path) >= 2;
      }
      if path :| RowCount(rows, path) >= 2 {
        if RowCount(rest, path) < 2 {
          var j :| 0 <= j < |rest| && rest[j].path == path;
          assert rows[j].path == rows[n].path && !First(rows, n);
        } else {
          var k :| 0 <= k < |rest| && !First(rest, k);
          assert !First(rows, k);
        }
      }
    }
  }

  /** A path that the rewrite writes more than once: its row stays and there are two,
      or its row is lowered and two lines start with it. */
  predicate Doubled(rows: seq<Row>, files: seq<File>, lines: seq<bytes>, path: bytes) {
    match FirstRow(rows, path)
    case None => false
    case Some(r) =>
      match FixRow(r, files)
      case None => false
      case Some(q) => if q == r then RowCount(rows, path) >= 2 else Tokens(lines, path) >= 2
  }

  /** Lines of a path whose row stays, or that has none, stay. */
  lemma {:induction false} KeptCount(rows: seq<Row>, files: seq<File>, lines: seq<bytes>, path: bytes)
    requires path != []
    requires var r := FirstRow(rows, path); r.Some? ==> FixRow(r.value, files) == r
    ensures RowCount(RowsOf(EmitLines(rows, files, lines)), path) == RowCount(RowsOf(lines), path)
    decreases |lines|
  {
    hide Parse, Print, Lookup, RowsOf, EmitLine, FixRow;
    RowsNone();
    if lines != [] {
      var k := |lines| - 1;
      var rest, line := lines[..k], lines[k];
      KeptCount(rows, files, rest, path);
      var done, e := EmitLines(rows, files, rest), EmitLine(rows, files, line);
      assert lines == rest + [line];
      RowsOfAppend(rest, [line]);
      RowsOfAppend(done, e);
      KeptLine(rows, files, line, path);
      AtLeastAppend(RowsOf(rest), RowsOf([line]), path, 1);
      AtLeastAppend(RowsOf(done), RowsOf(e), path, 1);
    }
  }

  lemma KeptLine(rows: seq<Row>, files: seq<File>, line: bytes, path: bytes)
    requires path != []
    requires var r := FirstRow(rows, path); r.Some? ==> FixRow(r.value, files) == r
    ensures var a, e := RowsOf([line]), RowsOf(EmitLine(rows, files, line));
            |a| <= 1 && |e| <= 1 && RowCount(e, path) == RowCount(a, path)
  {
    hide Parse, Print, Lookup, RowsOf;
    EmitParses(rows, files, line);
    ParsedFirst(rows, Parse(line).path);
    RowsNone();
    RowsOfOne(line);
    var e := EmitLine(rows, files, line);
    if e != [] {
      assert e == [e[0]];
      RowsOfOne(e[0]);
    }
  }

  /** What the rewritten file repeats, told from the file before it. */
  lemma RepeatsIff(lines: seq<bytes>, files: seq<File>)
    ensures var rows := RowsOf(lines);
            Repeats(RowsOf(EmitLines(rows, files, lines))) <==> exists path :: Doubled(rows, files, lines, path)
  {
    hide RowsOf, EmitLines, Repeats, FirstRow, FixRow, Tokens, AtLeast, Positive;
    var rows := RowsOf(lines);
    var out := EmitLines(rows, files, lines);
    RowsPositive(out);
    RowsPositive(lines);
    RepeatsIsTwo(RowsOf(out));
    forall path ensures RowCount(RowsOf(out), path) >= 2 <==> Doubled(rows, files, lines, path) {
      CountAfter(lines, files, path);
    }
    if path :| RowCount(RowsOf(out), path) >= 2 { assert Doubled(rows, files, lines, path); }
    if path :| Doubled(rows, files, lines, path) { assert RowCount(RowsOf(out), path) >= 2; }
  }

  lemma CountAfter(lines: seq<bytes>, files: seq<File>, path: bytes)
    ensures var rows := RowsOf(lines);
            RowCount(RowsOf(EmitLines(rows, files, lines)), path) >= 2 <==> Doubled(rows, files, lines, path)
  {
    hide Parse, Print, Lookup, RowsOf, EmitLines, Tokens, AtLeast, Positive;
    var rows := RowsOf(lines);
    var out := EmitLines(rows, files, lines);
    RowsPositive(out);
    RowsPositive(lines);
    CountFound(RowsOf(out), path);
    CountFound(rows, path);
    FirstRowFound(rows, path);
    FirstRowFound(RowsOf(out), path);
    if path != [] {
      FirstAfter(rows, files, lines, path);
      var r := FirstRow(rows, path);
      if r.None? || FixRow(r.value, files) == r {
        KeptCount(rows, files, lines, path);
      } else if StateOf(r.value, files) == Tightenable {
        AllWritten(rows, files, lines, r.value, 1);
      }
    }
  }

  ghost predicate TooLong(files: seq<File>, path: bytes) {
    exists k :: 0 <= k < |files| && files[k].path == path && files[k].loc > LIMIT
  }

  /** The states of the rows after a fix: lowered rows hold, grown ones stay grown,
      the rest are gone. */
  lemma StatesAfter(lines: seq<bytes>, files: seq<File>, path: bytes)
    ensures var rows := RowsOf(lines);
            var after := RowsOf(EmitLines(rows, files, lines));
            && (InState(after, files, path, Grown) <==> InState(rows, files, path, Grown))
            && !InState(after, files, path, Retired) && !InState(after, files, path, Unseen)
            && (TooLong(files, path) && DistinctFiles(files) ==> (HasRow(after, path) <==> HasRow(rows, path)))
  {
    hide Parse, RowsOf, EmitLines, Lookup, HasRow, DistinctFiles;
    var rows := RowsOf(lines);
    var out := EmitLines(rows, files, lines);
    FirstRowFound(rows, path);
    FirstRowFound(RowsOf(out), path);
    if path != [] {
      FirstAfter(rows, files, lines, path);
      if FirstRow(rows, path).Some? { FixAgain(FirstRow(rows, path).value, files); }
    } else {
      NoEmptyPath(lines);
      NoEmptyPath(out);
    }
    if TooLong(files, path) && DistinctFiles(files) {
      var k :| 0 <= k < |files| && files[k].path == path && files[k].loc > LIMIT;
      LookupFile(files, k);
    }
  }

  lemma NoEmptyPath(lines: seq<bytes>)
    ensures !HasRow(RowsOf(lines), []) && FirstRow(RowsOf(lines), []) == None
  {
    hide RowsOf;
    RowsPositive(lines);
    FirstRowFound(RowsOf(lines), []);
  }

  lemma {:induction false} SameOver(a: seq<Row>, b: seq<Row>, files: seq<File>)
    requires forall k :: 0 <= k < |files| && files[k].loc > LIMIT ==>
              (HasRow(a, files[k].path) <==> HasRow(b, files[k].path))
    ensures Over(a, files) == Over(b, files)
  {
    hide HasRow;
    if files != [] { SameOver(a, b, files[..|files| - 1]); }
  }

  /** When the verdict of a --fix run is that of a fresh run on the file it leaves:
      exactly if it fails anyway, or no path is written twice. A repeated row that
      survives the fix is forgiven by the run that changed something and fails the
      next one. */
  lemma FixThenGateIff(lines: seq<bytes>, files: seq<File>)
    requires DistinctFiles(files)
    ensures var rows := RowsOf(lines);
            var after := RowsOf(EmitLines(rows, files, lines));
            && (Fails(after, files, false) <==>
                Fails(rows, files, true) || exists path :: Doubled(rows, files, lines, path))
            && ((Fails(after, files, false) <==> Fails(rows, files, true)) <==>
                (Fails(rows, files, true) || !exists path :: Doubled(rows, files, lines, path)))
  {
    hide RowsOf, EmitLines, InState, Repeats, Over, HasRow, Doubled, DistinctFiles;
    var rows := RowsOf(lines);
    var after := RowsOf(EmitLines(rows, files, lines));
    RepeatsIff(lines, files);
    forall path
      ensures InState(after, files, path, Grown) <==> InState(rows, files, path, Grown)
      ensures !InState(after, files, path, Retired) && !InState(after, files, path, Unseen)
    {
      StatesAfter(lines, files, path);
    }
    forall k | 0 <= k < |files| && files[k].loc > LIMIT
      ensures HasRow(after, files[k].path) <==> HasRow(rows, files[k].path)
    {
      StatesAfter(lines, files, files[k].path);
    }
    SameOver(after, rows, files);
  }

  /* ---- the same on the bytes of the file --------------------------------------------------- */

  /** char line[PATH_MAX_LEN + 64], less the terminator. */
  const ROOM: nat := PATH_MAX + 63

  /** The bytes --fix leaves of a baseline file. */
  function FixText(text: bytes, files: seq<File>): bytes {
    var lines := Pieces(text, ROOM);
    Concat(EmitLines(RowsOf(lines), files, lines))
  }

  /** The counts fit a long. */
  ghost predicate LongCounts(files: seq<File>) {
    forall i :: 0 <= i < |files| ==> files[i].loc < 0x8000_0000_0000_0000
  }

  lemma {:induction false} LookupLong(files: seq<File>, path: bytes)
    requires LongCounts(files)
    ensures Lookup(files, path).Some? ==> Lookup(files, path).value < 0x8000_0000_0000_0000
  {
    if files != [] {
      LookupLong(files[..|files| - 1], path);
    }
  }

  lemma PrintShape(path: bytes, num: nat)
    requires IsToken(path) && num < 0x8000_0000_0000_0000
    ensures Piece(Print(path, num), ROOM) && Ended(Print(path, num))
  {
    hide Dec;
    var line, d := Print(path, num), Dec(num);
    DecShort(num);
    assert |line| == |path| + 2 + |d|;
    forall i | 0 <= i < |line| - 1 ensures line[i] != NEWLINE {
      assert line[i] == if i < |path| then path[i] else if i == |path| then 32 else d[i - |path| - 1];
    }
  }

  lemma EmitShape(rows: seq<Row>, files: seq<File>, line: bytes, i: nat)
    requires Piece(line, ROOM) && LongCounts(files) && i < |EmitLine(rows, files, line)|
    ensures var e := EmitLine(rows, files, line)[i]; Piece(e, ROOM) && (Ended(line) ==> Ended(e))
  {
    hide Parse, Print, Lookup, EmitLine, Piece, Ended, LongCounts;
    EmitParses(rows, files, line);
    ParsedToken(line);
    var p := Parse(line);
    if p.path != [] && FirstRow(rows, p.path).Some? {
      var r := FirstRow(rows, p.path).value;
      ParsedFirst(rows, p.path);
      LookupLong(files, r.path);
      if StateOf(r, files) == Tightenable { PrintShape(p.path, Lookup(files, r.path).value); }
    }
  }

  lemma {:induction false} EmitLinesShape(rows: seq<Row>, files: seq<File>, lines: seq<bytes>)
    requires Lines(lines, ROOM) && LongCounts(files)
    ensures Lines(EmitLines(rows, files, lines), ROOM)
    ensures (forall i :: 0 <= i < |lines| ==> Ended(lines[i])) ==>
              forall i :: 0 <= i < |EmitLines(rows, files, lines)| ==> Ended(EmitLines(rows, files, lines)[i])
  {
    hide Piece, Ended, EmitLine, LongCounts;
    if lines != [] {
      var n := |lines| - 1;
      var rest := lines[..n];
      EmitLinesShape(rows, files, rest);
      var done, e := EmitLines(rows, files, rest), EmitLine(rows, files, lines[n]);
      forall i | 0 <= i < |e| ensures Piece(e[i], ROOM) && (Ended(lines[n]) ==> Ended(e[i])) {
        EmitShape(rows, files, lines[n], i);
      }
      assert |e| <= 1 by { EmitAtMostOne(rows, files, lines[n]); }
      var all := done + e;
      forall i | 0 <= i < |all| ensures all[i] == if i < |done| then done[i] else e[i - |done|] { }
    }
  }

  lemma EmitAtMostOne(rows: seq<Row>, files: seq<File>, line: bytes)
    ensures |EmitLine(rows, files, line)| <= 1
  {
  }

  /** A rewritten baseline whose lines fitted the buffer is read back as the lines
      that were written, so a second --fix leaves its bytes alone. */
  lemma FixTextIdempotent(text: bytes, files: seq<File>)
    requires Lines(Pieces(text, ROOM), ROOM) && LongCounts(files)
    ensures var lines := Pieces(text, ROOM);
            Pieces(FixText(text, files), ROOM) == EmitLines(RowsOf(lines), files, lines)
    ensures FixText(FixText(text, files), files) == FixText(text, files)
  {
    hide Pieces, Lines, RowsOf, EmitLines, EmitCount, LongCounts, Concat;
    var lines := Pieces(text, ROOM);
    EmitLinesShape(RowsOf(lines), files, lines);
    PiecesJoined(EmitLines(RowsOf(lines), files, lines), ROOM);
    SecondFix(lines, files);
  }
}
