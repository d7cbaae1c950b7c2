/** file_size_policy: the line-count gate with its shrink-only legacy baseline,
    and the --fix that tightens the baseline file. */
module FileSize {
  import opened Bytes
  import opened Wrappers
  import opened Decimal

  const LIMIT: int := 1500
  const PATH_MAX: nat := 1024

  /* ---- baseline lines ------------------------------------------------------------- */

  predicate Blank(c: byte) { c == 32 || c == 9 }

  predicate Space(c: byte) { c == 32 || 9 <= c <= 13 }

  predicate EndsToken(c: byte) { Blank(c) || c == 10 || c == 13 }

  function CutComment(s: bytes): bytes {
    if s == [] || s[0] == 35 then [] else [s[0]] + CutComment(s[1..])
  }

  function SkipBlank(s: bytes): bytes {
    if s != [] && Blank(s[0]) then SkipBlank(s[1..]) else s
  }

  function SkipSpace(s: bytes): bytes {
    if s != [] && Space(s[0]) then SkipSpace(s[1..]) else s
  }

  function TokenLen(s: bytes): (n: nat)
    ensures n <= |s|
  {
    if s == [] || EndsToken(s[0]) then 0 else 1 + TokenLen(s[1..])
  }

  /** strtol, base 10, without the limits of long. */
  function Strtol(s: bytes): int {
    var t := SkipSpace(s);
    if t != [] && t[0] == 45 then
      var v: int := Number(t[1..]);
      -v
    else if t != [] && t[0] == 43 then Number(t[1..])
    else Number(t)
  }

  function Number(s: bytes): nat {
    DecValue(s[..DigitRun(s)])
  }

  /** The number behind a path token. The token's end is overwritten before it is
      read, so only blanks lead on to a number. */
  function After(r: bytes): int {
    if r != [] && Blank(r[0]) then Strtol(SkipBlank(r)) else 0
  }

  /** A path token and its number; no path for blank lines, comments and tokens
      that are too long. */
  datatype Parsed = Parsed(path: bytes, num: int)

  function Parse(line: bytes): Parsed {
    var s := SkipBlank(CutComment(line));
    var n := TokenLen(s);
    if n == 0 || n >= PATH_MAX then Parsed([], 0) else Parsed(s[..n], After(s[n..]))
  }

  predicate IsToken(p: bytes) {
    0 < |p| < PATH_MAX && forall i :: 0 <= i < |p| ==> !EndsToken(p[i]) && p[i] != 35
  }

  /** The line --fix writes for a lowered row. */
  function Print(path: bytes, num: nat): bytes {
    path + ([32] + (Dec(num) + [10]))
  }

  lemma {:induction false} CutNothing(s: bytes)
    requires forall i :: 0 <= i < |s| ==> s[i] != 35
    ensures CutComment(s) == s
  {
    if s != [] {
      CutNothing(s[1..]);
      assert s == [s[0]] + s[1..];
    }
  }

  lemma {:induction false} TokenSplit(p: bytes, r: bytes)
    requires (forall i :: 0 <= i < |p| ==> !EndsToken(p[i])) && r != [] && EndsToken(r[0])
    ensures TokenLen(p + r) == |p|
    decreases |p|
  {
    if p == [] {
      assert p + r == r;
    } else {
      assert (p + r)[1..] == p[1..] + r;
      TokenSplit(p[1..], r);
    }
  }

  lemma {:induction false} ParsedToken(line: bytes)
    ensures var p := Parse(line).path; p != [] ==> IsToken(p)
  {
    var c := CutComment(line);
    CutClean(line);
    SkipBlankClean(c);
    TokenClean(SkipBlank(c));
  }

  lemma {:induction false} CutClean(s: bytes)
    ensures forall i :: 0 <= i < |CutComment(s)| ==> CutComment(s)[i] != 35
  {
    if s != [] && s[0] != 35 { CutClean(s[1..]); }
  }

  lemma {:induction false} SkipBlankClean(s: bytes)
    requires forall i :: 0 <= i < |s| ==> s[i] != 35
    ensures forall i :: 0 <= i < |SkipBlank(s)| ==> SkipBlank(s)[i] != 35
  {
    if s != [] && Blank(s[0]) { SkipBlankClean(s[1..]); }
  }

  lemma {:induction false} TokenClean(s: bytes)
    ensures forall i :: 0 <= i < TokenLen(s) ==> !EndsToken(s[i])
  {
    if s != [] && !EndsToken(s[0]) {
      TokenClean(s[1..]);
      forall i | 0 <= i < TokenLen(s) ensures !EndsToken(s[i]) {
        if i > 0 { assert s[i] == s[1..][i - 1]; }
      }
    }
  }

  /** A printed row reads back as itself. */
  lemma PrintedParses(path: bytes, num: nat)
    requires IsToken(path) && num > 0
    ensures Parse(Print(path, num)) == Parsed(path, num)
  {
    hide Dec, DecValue, DigitRun;
    var d := Dec(num);
    var line := Print(path, num);
    var rest := [32] + (d + [10]);
    forall i | 0 <= i < |line| ensures line[i] != 35 {
      assert line[i] == if i < |path| then path[i] else rest[i - |path|];
    }
    CutNothing(line);
    assert line[0] == path[0];
    assert SkipBlank(line) == line;
    TokenSplit(path, rest);
    assert line[..|path|] == path && line[|path|..] == rest;
    assert rest[1..] == d + [10];
    assert (d + [10])[0] == d[0] && IsDigit(d[0]);
    assert SkipBlank(rest) == d + [10];
    assert SkipSpace(d + [10]) == d + [10];
    DigitRunSplit(d, [10]);
    assert (d + [10])[..|d|] == d;
    DecValueDec(num);
  }

  /* ---- rows and their states ---------------------------------------------------------- */

  datatype Row = Row(path: bytes, recorded: int)

  datatype File = File(path: bytes, loc: nat)

  datatype State = Unseen | Retired | Grown | Held | Tightenable

  predicate IsRow(p: Parsed) { p.path != [] && p.num > 0 }

  function RowsOf(lines: seq<bytes>): seq<Row> {
    if lines == [] then []
    else
      var p := Parse(lines[0]);
      (if IsRow(p) then [Row(p.path, p.num)] else []) + RowsOf(lines[1..])
  }

  function Lookup(files: seq<File>, path: bytes): Option<nat> {
    if files == [] then None
    else if files[|files| - 1].path == path then Some(files[|files| - 1].loc)
    else Lookup(files[..|files| - 1], path)
  }

  /** What the scan makes of a row. */
  function StateOf(r: Row, files: seq<File>): State {
    match Lookup(files, r.path)
    case None => Unseen
    case Some(loc) =>
      if loc <= LIMIT then Retired
      else if loc > r.recorded then Grown
      else if loc < r.recorded then Tightenable
      else Held
  }

  /** What --fix makes of a row: lowered, dropped or kept. */
  function FixRow(r: Row, files: seq<File>): Option<Row> {
    match StateOf(r, files)
    case Tightenable => Some(Row(r.path, Lookup(files, r.path).value))
    case Retired => None
    case Unseen => None
    case Grown => Some(r)
    case Held => Some(r)
  }

  function FixRows(rows: seq<Row>, files: seq<File>): seq<Row> {
    if rows == [] then []
    else
      match FixRow(rows[0], files)
      case Some(r) => [r] + FixRows(rows[1..], files)
      case None => FixRows(rows[1..], files)
  }

  function Changes(r: Row, files: seq<File>): nat {
    if FixRow(r, files) == Some(r) then 0 else 1
  }

  /** The lines --fix writes for one line, if its row is its own. */
  function FixLine(line: bytes, files: seq<File>): seq<bytes> {
    var p := Parse(line);
    if !IsRow(p) then [line]
    else
      var r := Row(p.path, p.num);
      match FixRow(r, files)
      case Some(q) => if q == r then [line] else [Print(q.path, q.recorded)]
      case None => []
  }

  function FixLines(lines: seq<bytes>, files: seq<File>): seq<bytes> {
    if lines == [] then [] else FixLine(lines[0], files) + FixLines(lines[1..], files)
  }

  function LineChanges(lines: seq<bytes>, files: seq<File>): nat {
    if lines == [] then 0
    else
      var p := Parse(lines[0]);
      (if IsRow(p) then Changes(Row(p.path, p.num), files) else 0) + LineChanges(lines[1..], files)
  }

  /* ---- what --fix keeps ------------------------------------------------------------------ */

  lemma {:induction false} RowsOfAppend(a: seq<bytes>, b: seq<bytes>)
    ensures RowsOf(a + b) == RowsOf(a) + RowsOf(b)
    decreases |a|
  {
    hide RowsOf;
    if a == [] {
      assert a + b == b;
      RowsNone();
    } else {
      assert (a + b)[1..] == a[1..] + b;
      RowsOfAppend(a[1..], b);
      RowsFirst(a);
      RowsFirst(a + b);
      var head := RowsOf([a[0]]);
      assert head + (RowsOf(a[1..]) + RowsOf(b)) == head + RowsOf(a[1..]) + RowsOf(b);
    }
  }

  lemma RowsNone()
    ensures RowsOf([]) == []
  {
  }

  lemma RowsFirst(lines: seq<bytes>)
    requires lines != []
    ensures RowsOf(lines) == RowsOf([lines[0]]) + RowsOf(lines[1..])
  {
    hide Parse, IsRow;
    var first := [lines[0]];
    assert first[1..] == [];
  }

  lemma RowsOfOne(line: bytes)
    ensures RowsOf([line]) == if IsRow(Parse(line)) then [Row(Parse(line).path, Parse(line).num)] else []
  {
    hide Parse;
    assert [line][1..] == [];
  }

  lemma FixLineRows(line: bytes, files: seq<File>)
    ensures RowsOf(FixLine(line, files)) == FixRows(RowsOf([line]), files)
  {
    hide Parse, Lookup, Print;
    var p := Parse(line);
    RowsOfOne(line);
    ParsedToken(line);
    if IsRow(p) {
      var r := Row(p.path, p.num);
      assert [r][1..] == [];
      match FixRow(r, files)
      case None =>
      case Some(q) =>
        if q != r {
          PrintedParses(q.path, q.recorded);
          RowsOfOne(Print(q.path, q.recorded));
        }
    }
  }

  lemma {:induction false} FixRowsAppend(a: seq<Row>, b: seq<Row>, files: seq<File>)
    ensures FixRows(a + b, files) == FixRows(a, files) + FixRows(b, files)
    decreases |a|
  {
    hide FixRow;
    if a == [] {
      assert a + b == b;
    } else {
      assert (a + b)[1..] == a[1..] + b;
      FixRowsAppend(a[1..], b, files);
    }
  }

  /** The rows of the fixed file are the fixed rows. */
  lemma {:induction false} FixedRows(lines: seq<bytes>, files: seq<File>)
    ensures RowsOf(FixLines(lines, files)) == FixRows(RowsOf(lines), files)
    decreases |lines|
  {
    hide FixLine, FixRows;
    if lines == [] {
      assert FixRows([], files) == [] by { NoRows(files); }
    } else {
      var a, b := [lines[0]], lines[1..];
      assert lines == a + b;
      RowsOfAppend(a, b);
      RowsOfAppend(FixLine(lines[0], files), FixLines(b, files));
      FixLineRows(lines[0], files);
      FixedRows(b, files);
      FixRowsAppend(RowsOf(a), RowsOf(b), files);
    }
  }

  lemma NoRows(files: seq<File>)
    ensures FixRows([], files) == []
  {
  }

  /** A fixed row is held or grown: fixing it again changes nothing. */
  lemma FixAgain(r: Row, files: seq<File>)
    ensures FixRow(r, files).Some? ==> var q := FixRow(r, files).value;
              && FixRow(q, files) == Some(q) && q.path == r.path && q.recorded <= r.recorded
              && StateOf(q, files) == if StateOf(r, files) == Tightenable then Held else StateOf(r, files)
  {
    hide Lookup;
  }

  lemma {:induction false} FixLinesAppend(a: seq<bytes>, b: seq<bytes>, files: seq<File>)
    ensures FixLines(a + b, files) == FixLines(a, files) + FixLines(b, files)
    ensures LineChanges(a + b, files) == LineChanges(a, files) + LineChanges(b, files)
    decreases |a|
  {
    hide FixLine, Parse, IsRow, Changes;
    if a == [] {
      assert a + b == b;
    } else {
      assert (a + b)[1..] == a[1..] + b;
      FixLinesAppend(a[1..], b, files);
    }
  }

  lemma FixLineAgain(line: bytes, files: seq<File>)
    ensures FixLines(FixLine(line, files), files) == FixLine(line, files)
    ensures LineChanges(FixLine(line, files), files) == 0
  {
    hide Parse, Lookup, Print, StateOf;
    var p := Parse(line);
    var f := FixLine(line, files);
    ParsedToken(line);
    if f != [] {
      assert f[1..] == [] && f == [f[0]];
      if IsRow(p) {
        var r := Row(p.path, p.num);
        FixAgain(r, files);
        var q := FixRow(r, files).value;
        if q != r { FixedPositive(r, files); PrintedParses(q.path, q.recorded); }
      }
    }
  }

  lemma FixedPositive(r: Row, files: seq<File>)
    requires FixRow(r, files).Some? && r.recorded > 0
    ensures FixRow(r, files).value.recorded > 0
  {
    hide Lookup;
  }

  /** A second --fix changes nothing. */
  lemma {:induction false} FixIdempotent(lines: seq<bytes>, files: seq<File>)
    ensures FixLines(FixLines(lines, files), files) == FixLines(lines, files)
    ensures LineChanges(FixLines(lines, files), files) == 0
    decreases |lines|
  {
    hide FixLine, LineChanges;
    if lines == [] {
      NoChanges(files);
    } else {
      FixLineAgain(lines[0], files);
      FixIdempotent(lines[1..], files);
      FixLinesAppend(FixLine(lines[0], files), FixLines(lines[1..], files), files);
    }
  }

  lemma NoChanges(files: seq<File>)
    ensures LineChanges([], files) == 0
  {
  }

  /** Without a change the file is left as it is. */
  lemma {:induction false} UnchangedLines(lines: seq<bytes>, files: seq<File>)
    requires LineChanges(lines, files) == 0
    ensures FixLines(lines, files) == lines
    decreases |lines|
  {
    hide Parse, FixRow;
    if lines != [] {
      UnchangedLines(lines[1..], files);
      assert lines == [lines[0]] + lines[1..];
    }
  }

  /** --fix only tightens: every row left was there before, with the same or a
      higher number. */
  lemma {:induction false} FixTightens(rows: seq<Row>, files: seq<File>, q: Row)
    requires q in FixRows(rows, files)
    ensures exists r :: r in rows && r.path == q.path && q.recorded <= r.recorded
    decreases |rows|
  {
    hide FixRow;
    FixAgain(rows[0], files);
    if FixRow(rows[0], files) == Some(q) {
      assert rows[0] in rows;
    } else {
      FixTightens(rows[1..], files, q);
      var r :| r in rows[1..] && r.path == q.path && q.recorded <= r.recorded;
      assert r in rows;
    }
  }

  /* ---- the tally ----------------------------------------------------------------------------- */

  function Count(rows: seq<Row>, files: seq<File>, st: State): nat {
    if rows == [] then 0
    else Count(rows[..|rows| - 1], files, st) + if StateOf(rows[|rows| - 1], files) == st then 1 else 0
  }

  lemma {:induction false} CountAppend(a: seq<Row>, b: seq<Row>, files: seq<File>, st: State)
    ensures Count(a + b, files, st) == Count(a, files, st) + Count(b, files, st)
    decreases |b|
  {
    hide StateOf;
    if b == [] {
      assert a + b == a;
    } else {
      assert (a + b)[..|a + b| - 1] == a + b[..|b| - 1];
      CountAppend(a, b[..|b| - 1], files, st);
    }
  }

  lemma CountOne(r: Row, files: seq<File>, st: State)
    ensures Count([r], files, st) == if StateOf(r, files) == st then 1 else 0
  {
    hide StateOf;
    assert [r][..0] == [];
  }

  /** After --fix: nothing retired or unseen, the tightenable rows are held, the
      grown rows are as many as before. */
  lemma {:induction false} FixTally(rows: seq<Row>, files: seq<File>)
    ensures var f := FixRows(rows, files);
            && Count(f, files, Retired) == 0 && Count(f, files, Unseen) == 0 && Count(f, files, Tightenable) == 0
            && Count(f, files, Grown) == Count(rows, files, Grown)
            && Count(f, files, Held) == Count(rows, files, Held) + Count(rows, files, Tightenable)
    decreases |rows|
  {
    hide StateOf, Count, FixRow;
    if rows == [] {
      forall st ensures Count([], files, st) == 0 { CountNone(files, st); }
    } else {
      var r, rest := rows[0], rows[1..];
      assert rows == [r] + rest;
      FixTally(rest, files);
      FixAgain(r, files);
      FixRowStates(r, files);
      forall st ensures Count(rows, files, st) == (if StateOf(r, files) == st then 1 else 0) + Count(rest, files, st) {
        CountAppend([r], rest, files, st);
        CountOne(r, files, st);
      }
      if FixRow(r, files).Some? {
        var q := FixRow(r, files).value;
        forall st ensures Count([q] + FixRows(rest, files), files, st)
            == (if StateOf(q, files) == st then 1 else 0) + Count(FixRows(rest, files), files, st) {
          CountAppend([q], FixRows(rest, files), files, st);
          CountOne(q, files, st);
        }
      }
    }
  }

  lemma CountNone(files: seq<File>, st: State)
    ensures Count([], files, st) == 0
  {
  }

  lemma FixRowStates(r: Row, files: seq<File>)
    ensures FixRow(r, files).None? <==> StateOf(r, files) == Retired || StateOf(r, files) == Unseen
  {
    hide StateOf;
  }

  predicate HasRow(rows: seq<Row>, path: bytes) { exists k :: 0 <= k < |rows| && rows[k].path == path }

  /** Files over the limit without a row. */
  function Over(rows: seq<Row>, files: seq<File>): seq<File> {
    if files == [] then []
    else
      var f := files[|files| - 1];
      Over(rows, files[..|files| - 1]) + if f.loc > LIMIT && !HasRow(rows, f.path) then [f] else []
  }

  predicate DistinctFiles(files: seq<File>) {
    forall i, j :: 0 <= i < j < |files| ==> files[i].path != files[j].path
  }

  lemma {:induction false} LookupFile(files: seq<File>, k: nat)
    requires DistinctFiles(files) && k < |files|
    ensures Lookup(files, files[k].path) == Some(files[k].loc)
  {
    if k < |files| - 1 { LookupFile(files[..|files| - 1], k); }
  }

  /** A row of a file over the limit survives --fix. */
  lemma {:induction false} OverRowKept(rows: seq<Row>, files: seq<File>, path: bytes)
    requires Lookup(files, path).Some? && Lookup(files, path).value > LIMIT
    ensures HasRow(FixRows(rows, files), path) <==> HasRow(rows, path)
    decreases |rows|
  {
    hide Lookup;
    if rows != [] {
      var r, rest := rows[0], rows[1..];
      OverRowKept(rest, files, path);
      FixAgain(r, files);
      HasRowCons(r, rest, path);
      assert rows == [r] + rest;
      if FixRow(r, files).Some? { HasRowCons(FixRow(r, files).value, FixRows(rest, files), path); }
    }
  }

  lemma HasRowCons(r: Row, rest: seq<Row>, path: bytes)
    ensures HasRow([r] + rest, path) <==> r.path == path || HasRow(rest, path)
  {
    var e := [r] + rest;
    if HasRow(rest, path) {
      var k :| 0 <= k < |rest| && rest[k].path == path;
      assert e[k + 1].path == path;
    }
    if r.path == path { assert e[0].path == path; }
  }

  lemma {:induction false} OverSame(rows: seq<Row>, files: seq<File>, k: nat)
    requires DistinctFiles(files) && k <= |files|
    ensures Over(FixRows(rows, files), files[..k]) == Over(rows, files[..k])
  {
    hide FixRows, HasRow;
    if k > 0 {
      OverSame(rows, files, k - 1);
      assert files[..k][..k - 1] == files[..k - 1];
      LookupFile(files, k - 1);
      if files[k - 1].loc > LIMIT { OverRowKept(rows, files, files[k - 1].path); }
    }
  }

  /** The gate's verdict on a baseline: something over, grown, retired or unseen. */
  predicate Violates(rows: seq<Row>, files: seq<File>) {
    |Over(rows, files)| + Count(rows, files, Grown) + Count(rows, files, Retired) + Count(rows, files, Unseen) > 0
  }

  /** After --fix only files over the limit and grown rows are left to complain
      about, the same ones as before. */
  lemma FixVerdict(rows: seq<Row>, files: seq<File>)
    requires DistinctFiles(files)
    ensures Violates(FixRows(rows, files), files) <==> |Over(rows, files)| + Count(rows, files, Grown) > 0
  {
    hide Over, Count, FixRows;
    FixTally(rows, files);
    OverSame(rows, files, |files|);
    assert files[..|files|] == files;
  }

  /** A file that was scanned with more lines than the limit of 1500. */
  predicate Long(files: seq<File>, f: File) { f in files && f.loc > 1500 }

  /** A file over the limit has no row or more lines than its row allows, or a row has
      no scanned file over the limit. */
  ghost predicate Breach(rows: seq<Row>, files: seq<File>) {
    || (exists f :: Long(files, f) && !HasRow(rows, f.path))
    || (exists f, r :: Long(files, f) && r in rows && r.path == f.path && r.recorded < f.loc)
    || (exists r :: r in rows && forall f :: Long(files, f) ==> f.path != r.path)
  }

  lemma {:induction false} LookupIs(files: seq<File>, path: bytes)
    requires DistinctFiles(files)
    ensures Lookup(files, path).None? <==> forall f :: f in files ==> f.path != path
    ensures forall f :: f in files && f.path == path ==> Lookup(files, path) == Some(f.loc)
  {
    forall f | f in files && f.path == path ensures Lookup(files, path) == Some(f.loc) {
      var k :| 0 <= k < |files| && files[k] == f;
      LookupFile(files, k);
    }
    LookupMember(files, path);
  }

  lemma {:induction false} LookupMember(files: seq<File>, path: bytes)
    ensures Lookup(files, path).Some? ==> File(path, Lookup(files, path).value) in files
  {
    if files != [] { LookupMember(files[..|files| - 1], path); }
  }

  lemma {:induction false} OverIff(rows: seq<Row>, files: seq<File>)
    ensures Over(rows, files) != [] <==> exists f :: Long(files, f) && !HasRow(rows, f.path)
  {
    hide HasRow;
    if files != [] {
      var n := |files| - 1;
      OverIff(rows, files[..n]);
      assert files == files[..n] + [files[n]];
      if f :| Long(files[..n], f) && !HasRow(rows, f.path) { assert Long(files, f); }
      if files[n].loc > LIMIT && !HasRow(rows, files[n].path) { assert Long(files, files[n]); }
      if f :| Long(files, f) && !HasRow(rows, f.path) { assert f in files[..n] ==> Long(files[..n], f); }
    }
  }

  lemma {:induction false} CountIff(rows: seq<Row>, files: seq<File>, st: State)
    ensures Count(rows, files, st) > 0 <==> exists r :: r in rows && StateOf(r, files) == st
  {
    hide StateOf;
    if rows != [] {
      var n := |rows| - 1;
      CountIff(rows[..n], files, st);
      assert rows == rows[..n] + [rows[n]] && rows[n] in rows;
      if r :| r in rows[..n] && StateOf(r, files) == st { assert r in rows; }
      if r :| r in rows && StateOf(r, files) == st { assert r == rows[n] || r in rows[..n]; }
    }
  }

  /** The states of a row, on the files themselves. */
  lemma StateIs(r: Row, files: seq<File>)
    requires DistinctFiles(files)
    ensures StateOf(r, files) == Grown <==> exists f :: Long(files, f) && r.path == f.path && r.recorded < f.loc
    ensures StateOf(r, files) == Retired || StateOf(r, files) == Unseen <==>
            forall f :: Long(files, f) ==> f.path != r.path
  {
    hide Lookup, DistinctFiles;
    LookupIs(files, r.path);
    LookupMember(files, r.path);
    var l := Lookup(files, r.path);
    if l.Some? {
      var f := File(r.path, l.value);
      assert f in files;
      if l.value > 1500 { assert Long(files, f); }
    }
  }

  /** A row the gate complains about. */
  predicate Bad(r: Row, files: seq<File>) {
    StateOf(r, files) == Grown || StateOf(r, files) == Retired || StateOf(r, files) == Unseen
  }

  lemma BreachCounts(rows: seq<Row>, files: seq<File>)
    requires Breach(rows, files) && DistinctFiles(files)
    ensures (exists f :: Long(files, f) && !HasRow(rows, f.path))
      || exists r :: r in rows && Bad(r, files)
  {
    hide StateOf, DistinctFiles, Long, HasRow;
    if f :| Long(files, f) && !HasRow(rows, f.path) {
    } else if f, r :| Long(files, f) && r in rows && r.path == f.path && r.recorded < f.loc {
      StateIs(r, files);
    } else {
      var r :| r in rows && forall f :: Long(files, f) ==> f.path != r.path;
      StateIs(r, files);
    }
  }

  lemma CountsBreach(rows: seq<Row>, files: seq<File>)
    requires DistinctFiles(files)
    requires (exists f :: Long(files, f) && !HasRow(rows, f.path))
      || exists r :: r in rows && Bad(r, files)
    ensures Breach(rows, files)
  {
    hide StateOf, DistinctFiles, Long, HasRow;
    if f :| Long(files, f) && !HasRow(rows, f.path) {
    } else {
      var r :| r in rows && Bad(r, files);
      StateIs(r, files);
    }
  }

  /** The gate complains exactly about a breach. */
  lemma ViolatesIff(rows: seq<Row>, files: seq<File>)
    requires DistinctFiles(files)
    ensures Violates(rows, files) <==> Breach(rows, files)
  {
    hide Over, Count, StateOf, DistinctFiles, Breach, Long, HasRow;
    OverIff(rows, files);
    CountIff(rows, files, Grown);
    CountIff(rows, files, Retired);
    CountIff(rows, files, Unseen);
    if Breach(rows, files) { BreachCounts(rows, files); }
    if Violates(rows, files) { CountsBreach(rows, files); }
  }

  /** What --fix makes of the rows: those of files over the limit stay, each with the
      smaller of its number and the count. */
  ghost predicate Tightened(rows: seq<Row>, files: seq<File>, q: Row) {
    exists r, f :: r in rows && Long(files, f) && r.path == f.path
                   && q == Row(r.path, if r.recorded < f.loc then r.recorded else f.loc)
  }

  lemma FixRowIs(r: Row, files: seq<File>, q: Row)
    requires DistinctFiles(files)
    ensures FixRow(r, files) == Some(q) <==>
            exists f :: Long(files, f) && r.path == f.path
                        && q == Row(r.path, if r.recorded < f.loc then r.recorded else f.loc)
  {
    hide Lookup, DistinctFiles;
    LookupIs(files, r.path);
    LookupMember(files, r.path);
    var l := Lookup(files, r.path);
    if l.Some? && l.value > 1500 { assert Long(files, File(r.path, l.value)); }
  }

  lemma {:induction false} FixRowsIff(rows: seq<Row>, files: seq<File>, q: Row)
    requires DistinctFiles(files)
    ensures q in FixRows(rows, files) <==> Tightened(rows, files, q)
    decreases |rows|
  {
    hide FixRow, Long, DistinctFiles;
    if rows != [] {
      FixRowsIff(rows[1..], files, q);
      FixRowIs(rows[0], files, q);
      assert rows == [rows[0]] + rows[1..];
    }
  }

  /* ---- the gate as it runs --------------------------------------------------------------------- */

  /** The tokens at the start of the lines are different. */
  ghost predicate DistinctPaths(lines: seq<bytes>) {
    forall i, j :: 0 <= i < j < |lines| && Parse(lines[i]).path != [] ==> Parse(lines[i]).path != Parse(lines[j]).path
  }

  /** A row the compiled list does not allow: no ceiling for it, or above it. */
  predicate Minted(p: Parsed, ceiling: bytes -> int) {
    IsRow(p) && (ceiling(p.path) < 0 || p.num > ceiling(p.path))
  }

  ghost predicate AnyMinted(lines: seq<bytes>, ceiling: bytes -> int) {
    exists i :: 0 <= i < |lines| && Minted(Parse(lines[i]), ceiling)
  }

  /** The first row with its path: the one the scan and the rewrite use. */
  ghost predicate First(rows: seq<Row>, k: nat) {
    k < |rows| && forall j :: 0 <= j < k ==> rows[j].path != rows[k].path
  }

  /** The states after scanning these files; a repeated row is never looked at. */
  ghost predicate StatesOf(rows: seq<Row>, states: seq<State>, observed: seq<nat>, files: seq<File>) {
    && |states| == |rows| && |observed| == |rows|
    && forall k :: 0 <= k < |rows| ==>
      if First(rows, k) then
        states[k] == StateOf(rows[k], files)
          && (states[k] != Unseen ==> Lookup(files, rows[k].path) == Some(observed[k]))
      else states[k] == Unseen
  }

  lemma ScanMiss(rows: seq<Row>, states: seq<State>, observed: seq<nat>, files: seq<File>, f: File)
    requires StatesOf(rows, states, observed, files) && !HasRow(rows, f.path)
    ensures StatesOf(rows, states, observed, files + [f])
  {
    hide Lookup, First;
    forall k | 0 <= k < |rows| ensures StateOf(rows[k], files + [f]) == StateOf(rows[k], files)
      ensures Lookup(files + [f], rows[k].path) == Lookup(files, rows[k].path)
    {
      LookupLast(files, f, rows[k].path);
    }
  }

  lemma ScanHit(rows: seq<Row>, states: seq<State>, observed: seq<nat>, files: seq<File>, f: File, k: nat, st: State)
    requires StatesOf(rows, states, observed, files) && k < |rows| && First(rows, k) && rows[k].path == f.path
    requires st == StateOf(rows[k], files + [f]) && st != Unseen
    ensures StatesOf(rows, states[k := st], observed[k := f.loc], files + [f])
  {
    hide Lookup, StateOf;
    LookupLast(files, f, f.path);
    forall j | 0 <= j < |rows| && j != k && First(rows, j)
      ensures StateOf(rows[j], files + [f]) == StateOf(rows[j], files)
      ensures Lookup(files + [f], rows[j].path) == Lookup(files, rows[j].path)
    {
      assert rows[j].path != f.path;
      LookupLast(files, f, rows[j].path);
      SameLookup(rows[j], files, files + [f]);
    }
  }

  lemma SameLookup(r: Row, a: seq<File>, b: seq<File>)
    requires Lookup(a, r.path) == Lookup(b, r.path)
    ensures StateOf(r, a) == StateOf(r, b)
  {
    hide Lookup;
  }

  lemma OverStep(rows: seq<Row>, files: seq<File>, f: File)
    ensures Over(rows, files + [f]) == Over(rows, files) + if f.loc > LIMIT && !HasRow(rows, f.path) then [f] else []
  {
    hide HasRow;
    assert (files + [f])[..|files|] == files;
  }

  /** struct policy_run */
  class Run {
    var rows: seq<Row>
    var states: seq<State>
    var observed: seq<nat>
    var over: seq<File>
    var failed: bool
    var scanned: nat

    /** The rows and what they show after scanning these files. */
    ghost predicate Scanned(files: seq<File>)
      reads this
    {
      StatesOf(rows, states, observed, files) && |states| == |rows| && |observed| == |rows| && over == Over(rows, files)
        && scanned == |files|
    }

    constructor ()
      ensures rows == [] && Scanned([]) && !failed
    {
      rows, states, observed, over := [], [], [], [];
      failed, scanned := false, 0;
    }

    /** find_row */
    method FindRow(path: bytes) returns (k: nat)
      ensures k <= |rows| && (k < |rows| ==> rows[k].path == path && First(rows, k))
      ensures k == |rows| <==> !HasRow(rows, path)
    {
      k := 0;
      while k < |rows| && rows[k].path != path
        invariant k <= |rows| && forall j :: 0 <= j < k ==> rows[j].path != path
      {
        k := k + 1;
      }
    }

    /** load_baseline */
    method Load(lines: seq<bytes>, closed: bool, ceiling: bytes -> int)
      requires rows == [] && Scanned([]) && !failed
      modifies this
      ensures failed <==> closed && AnyMinted(lines, ceiling)
      ensures !failed ==> rows == RowsOf(lines)
      ensures closed ==> forall k :: 0 <= k < |rows| ==> rows[k].recorded <= ceiling(rows[k].path)
      ensures Scanned([])
    {
      hide Parse, RowsOf;
      RowsNone();
      assert lines[..0] == [];
      for i := 0 to |lines|
        invariant failed <==> closed && exists j :: 0 <= j < i && Minted(Parse(lines[j]), ceiling)
        invariant !failed ==> rows == RowsOf(lines[..i])
        invariant closed ==> forall k :: 0 <= k < |rows| ==> rows[k].recorded <= ceiling(rows[k].path)
        invariant |states| == |observed| == |rows| && over == [] && scanned == 0 && forall k :: 0 <= k < |rows| ==>
          states[k] == Unseen
      {
        var p := Parse(lines[i]);
        assert lines[..i + 1] == lines[..i] + [lines[i]];
        RowsOfAppend(lines[..i], [lines[i]]);
        RowsOfOne(lines[i]);
        if IsRow(p) {
          if closed && Minted(p, ceiling) {
            failed := true;
          } else {
            rows := rows + [Row(p.path, p.num)];
            states, observed := states + [Unseen], observed + [0];
          }
        }
      }
      assert lines[..|lines|] == lines;
    }

    /** classify */
    method Classify(f: File, ghost files: seq<File>)
      requires Scanned(files)
      modifies this`states, this`observed, this`over, this`scanned
      ensures Scanned(files + [f])
    {
      hide Lookup, StatesOf, Over, First, HasRow;
      var k := FindRow(f.path);
      OverStep(rows, files, f);
      LookupLast(files, f, f.path);
      scanned := scanned + 1;
      if k < |rows| {
        var st := if f.loc <= LIMIT then Retired else if f.loc > rows[k].recorded then Grown
                  else if f.loc < rows[k].recorded then Tightenable else Held;
        ScanHit(rows, states, observed, files, f, k, st);
        states, observed := states[k := st], observed[k := f.loc];
      } else {
        ScanMiss(rows, states, observed, files, f);
        if f.loc > LIMIT { over := over + [f]; }
      }
    }

    /** rewrite_baseline: the new lines, and how many rows changed. */
    method Rewrite(lines: seq<bytes>, ghost files: seq<File>) returns (out: seq<bytes>, changed: nat)
      requires Scanned(files)
      ensures out == EmitLines(rows, files, lines) && changed == EmitCount(rows, files, lines)
      ensures changed == 0 ==> out == lines
    {
      hide Parse, Scanned, Lookup, EmitLine, Emits;
      out, changed := [], 0;
      for i := 0 to |lines|
        invariant out == EmitLines(rows, files, lines[..i]) && changed == EmitCount(rows, files, lines[..i])
        invariant changed == 0 ==> out == lines[..i]
      {
        var emitted, c := RewriteLine(lines[i], files);
        assert lines[..i + 1][..i] == lines[..i] && lines[..i + 1] == lines[..i] + [lines[i]];
        EmitUnchanged(rows, files, lines[i]);
        out, changed := out + emitted, changed + c;
      }
      assert lines[..|lines|] == lines;
    }

    method RewriteLine(line: bytes, ghost files: seq<File>) returns (out: seq<bytes>, c: nat)
      requires Scanned(files)
      ensures out == EmitLine(rows, files, line) && c == (if Emits(rows, files, line) then 1 else 0)
    {
      hide Parse, Lookup;
      var p := Parse(line);
      if p.path == [] { return [line], 0; }
      var k := FindRow(p.path);
      FirstRowIs(rows, p.path, k);
      if k == |rows| { return [line], 0; }
      match states[k] {
        case Tightenable =>
          return [Print(rows[k].path, observed[k])], 1;
        case Retired =>
          return [], 1;
        case Unseen =>
          return [], 1;
        case Grown =>
          return [line], 0;
        case Held =>
          return [line], 0;
      }
    }

    /** summarize_row_states */
    method Summarize(fixed: bool) returns (t: Tally)
      ensures t == Settled(TallyOf(states), fixed)
    {
      t := Tally(0, 0, 0, 0, 0);
      assert states[..0] == [];
      for i := 0 to |states|
        invariant t == TallyOf(states[..i])
      {
        assert states[..i + 1][..i] == states[..i];
        match states[i] {
          case Grown => t := t.(grown := t.grown + 1);
          case Retired => t := t.(retired := t.retired + 1);
          case Unseen => t := t.(unseen := t.unseen + 1);
          case Held => t := t.(held := t.held + 1);
          case Tightenable => t := t.(tightenable := t.tightenable + 1);
        }
      }
      assert states[..|states|] == states;
      if fixed {
        t := Tally(t.grown, 0, 0, t.held + t.tightenable, 0);
      }
    }
  }

  datatype Tally = Tally(grown: nat, retired: nat, unseen: nat, held: nat, tightenable: nat)

  function StateCount(states: seq<State>, st: State): nat {
    if states == [] then 0
    else StateCount(states[..|states| - 1], st) + if states[|states| - 1] == st then 1 else 0
  }

  function TallyOf(states: seq<State>): Tally {
    Tally(StateCount(states, Grown), StateCount(states, Retired), StateCount(states, Unseen),
          StateCount(states, Held), StateCount(states, Tightenable))
  }

  /** After --fix changed something its rows no longer count against the run. */
  function Settled(t: Tally, fixed: bool): Tally {
    if fixed then Tally(t.grown, 0, 0, t.held + t.tightenable, 0) else t
  }

  function FirstRow(rows: seq<Row>, path: bytes): Option<Row> {
    if rows == [] then None else if rows[0].path == path then Some(rows[0]) else FirstRow(rows[1..], path)
  }

  lemma {:induction false} FirstRowIs(rows: seq<Row>, path: bytes, k: nat)
    requires k <= |rows| && (k < |rows| ==> rows[k].path == path) && forall j :: 0 <= j < k ==> rows[j].path != path
    ensures FirstRow(rows, path) == if k < |rows| then Some(rows[k]) else None
  {
    if k > 0 { FirstRowIs(rows[1..], path, k - 1); }
  }

  /** What the rewrite puts in place of a line: the verdict on the first row with
      the line's token. */
  function EmitLine(rows: seq<Row>, files: seq<File>, line: bytes): seq<bytes> {
    var p := Parse(line);
    match (if p.path == [] then None else FirstRow(rows, p.path))
    case None => [line]
    case Some(r) =>
      match FixRow(r, files)
      case None => []
      case Some(q) => if q == r then [line] else [Print(q.path, q.recorded)]
  }

  predicate Emits(rows: seq<Row>, files: seq<File>, line: bytes) {
    var p := Parse(line);
    match (if p.path == [] then None else FirstRow(rows, p.path))
    case None => false
    case Some(r) => FixRow(r, files) != Some(r)
  }

  /** rewrite_baseline, line by line, whatever the paths. */
  function EmitLines(rows: seq<Row>, files: seq<File>, lines: seq<bytes>): seq<bytes> {
    if lines == [] then []
    else EmitLines(rows, files, lines[..|lines| - 1]) + EmitLine(rows, files, lines[|lines| - 1])
  }

  function EmitCount(rows: seq<Row>, files: seq<File>, lines: seq<bytes>): nat {
    if lines == [] then 0
    else EmitCount(rows, files, lines[..|lines| - 1]) + if Emits(rows, files, lines[|lines| - 1]) then 1 else 0
  }

  /** For distinct paths every line is judged by its own row. */
  lemma {:induction false} EmitDistinct(lines: seq<bytes>, files: seq<File>, i: nat)
    requires DistinctPaths(lines) && i <= |lines|
    ensures EmitLines(RowsOf(lines), files, lines[..i]) == FixLines(lines[..i], files)
    ensures EmitCount(RowsOf(lines), files, lines[..i]) == LineChanges(lines[..i], files)
  {
    hide Parse, RowsOf, FixLines, LineChanges, FixLine, Lookup, EmitLine, Emits, OnlyRow, HasRow;
    if i == 0 {
      FixNone(files);
    } else {
      EmitDistinct(lines, files, i - 1);
      assert lines[..i] == lines[..i - 1] + [lines[i - 1]];
      FixLinesAppend(lines[..i - 1], [lines[i - 1]], files);
      FixOne(lines[i - 1], files);
      OwnRow(lines, i - 1);
      EmitOwn(RowsOf(lines), files, lines[i - 1]);
    }
  }

  lemma EmitOwn(rows: seq<Row>, files: seq<File>, line: bytes)
    ensures var p := Parse(line);
            && (IsRow(p) && OnlyRow(rows, p) ==> EmitLine(rows, files, line) == FixLine(line, files))
            && (IsRow(p) && OnlyRow(rows, p) ==>
                (Emits(rows, files, line) <==> Changes(Row(p.path, p.num), files) == 1))
            && (!IsRow(p) && !HasRow(rows, p.path) ==>
                EmitLine(rows, files, line) == [line] && !Emits(rows, files, line))
  {
    hide Parse, FixRow;
    var p := Parse(line);
    FirstRowFound(rows, p.path);
  }

  lemma EmitUnchanged(rows: seq<Row>, files: seq<File>, line: bytes)
    ensures !Emits(rows, files, line) ==> EmitLine(rows, files, line) == [line]
  {
    hide Parse, FixRow;
  }

  lemma {:induction false} FirstRowFound(rows: seq<Row>, path: bytes)
    ensures FirstRow(rows, path).None? <==> !HasRow(rows, path)
    ensures FirstRow(rows, path).Some? ==> FirstRow(rows, path).value in rows && FirstRow(rows, path).value.path == path
  {
    if rows != [] {
      FirstRowFound(rows[1..], path);
      HasRowCons(rows[0], rows[1..], path);
      assert rows == [rows[0]] + rows[1..];
    }
  }

  /** p's row is loaded, and no other row has its path. */
  predicate OnlyRow(rows: seq<Row>, p: Parsed) {
    HasRow(rows, p.path) && forall k :: 0 <= k < |rows| && rows[k].path == p.path ==> rows[k] == Row(p.path, p.num)
  }

  lemma LookupLast(files: seq<File>, f: File, path: bytes)
    ensures Lookup(files + [f], path) == if path == f.path then Some(f.loc) else Lookup(files, path)
  {
    assert (files + [f])[..|files|] == files;
  }

  lemma FixNone(files: seq<File>)
    ensures FixLines([], files) == [] && LineChanges([], files) == 0
  {
  }

  lemma FixOne(line: bytes, files: seq<File>)
    ensures FixLines([line], files) == FixLine(line, files)
    ensures LineChanges([line], files)
      == if IsRow(Parse(line)) then Changes(Row(Parse(line).path, Parse(line).num), files) else 0
    ensures !IsRow(Parse(line)) ==> FixLine(line, files) == [line]
  {
    hide Parse, FixRow;
    assert [line][1..] == [];
  }

  predicate Records(line: bytes, r: Row) {
    IsRow(Parse(line)) && r == Row(Parse(line).path, Parse(line).num)
  }

  lemma {:induction false} RowFrom(lines: seq<bytes>, r: Row)
    ensures r in RowsOf(lines) <==> exists i :: 0 <= i < |lines| && Records(lines[i], r)
  {
    hide Parse, IsRow;
    if lines != [] {
      RowFrom(lines[1..], r);
      if i :| 0 <= i < |lines| && Records(lines[i], r) {
        if i > 0 { assert lines[1..][i - 1] == lines[i]; }
      }
      if i :| 0 <= i < |lines[1..]| && Records(lines[1..][i], r) {
        assert lines[i + 1] == lines[1..][i];
      }
    }
  }

  /** With distinct paths a line's token finds the line's own row or none. */
  lemma OwnRow(lines: seq<bytes>, i: nat)
    requires DistinctPaths(lines) && i < |lines|
    ensures var p := Parse(lines[i]);
            && (IsRow(p) ==> OnlyRow(RowsOf(lines), p))
            && (!IsRow(p) && p.path != [] ==> !HasRow(RowsOf(lines), p.path))
            && (p.path == [] ==> !HasRow(RowsOf(lines), p.path))
  {
    hide Parse, RowsOf;
    var p, rows := Parse(lines[i]), RowsOf(lines);
    forall k | 0 <= k < |rows| && rows[k].path == p.path ensures IsRow(p) && rows[k] == Row(p.path, p.num) {
      assert rows[k] in rows;
      RowFrom(lines, rows[k]);
      var j :| 0 <= j < |lines| && Records(lines[j], rows[k]);
      assert i == j;
    }
    if IsRow(p) {
      var r := Row(p.path, p.num);
      RowFrom(lines, r);
      assert Records(lines[i], r);
      assert r in rows;
    }
  }

  /* ---- the verdict ---------------------------------------------------------------------------- */

  lemma {:induction false} RowsDistinct(lines: seq<bytes>)
    requires DistinctPaths(lines)
    ensures forall k :: 0 <= k < |RowsOf(lines)| ==> First(RowsOf(lines), k)
  {
    hide Parse, IsRow;
    if lines != [] {
      var rest, rows := RowsOf(lines[1..]), RowsOf(lines);
      RowsDistinct(lines[1..]);
      forall k | 0 <= k < |rest| ensures rest[k].path != Parse(lines[0]).path || Parse(lines[0]).path == [] {
        assert rest[k] in rest;
        RowFrom(lines[1..], rest[k]);
        var j :| 0 <= j < |lines[1..]| && Records(lines[1..][j], rest[k]);
        assert lines[j + 1] == lines[1..][j];
      }
      RowNotEmpty(lines[0]);
      forall k | 0 <= k < |rows| ensures First(rows, k) {
        if IsRow(Parse(lines[0])) {
          assert rows == [Row(Parse(lines[0]).path, Parse(lines[0]).num)] + rest;
          if k > 0 { assert First(rest, k - 1) && rows[k] == rest[k - 1]; }
        } else {
          assert rows == rest;
        }
      }
    }
  }

  lemma RowNotEmpty(line: bytes)
    ensures IsRow(Parse(line)) ==> Parse(line).path != []
  {
  }

  lemma {:induction false} CountsAgree(rows: seq<Row>, states: seq<State>, files: seq<File>, st: State)
    requires |states| == |rows| && forall k :: 0 <= k < |rows| ==> states[k] == StateOf(rows[k], files)
    ensures StateCount(states, st) == Count(rows, files, st)
    decreases |rows|
  {
    hide StateOf;
    if rows != [] { CountsAgree(rows[..|rows| - 1], states[..|rows| - 1], files, st); }
  }

  lemma {:induction false} CountZero(states: seq<State>, st: State, k: nat)
    requires StateCount(states, st) == 0 && k < |states|
    ensures states[k] != st
  {
    if k < |states| - 1 { CountZero(states[..|states| - 1], st, k); }
  }

  lemma {:induction false} OverEmpty(rows: seq<Row>, files: seq<File>, k: nat)
    requires Over(rows, files) == [] && k < |files|
    ensures files[k].loc <= LIMIT || HasRow(rows, files[k].path)
  {
    if k < |files| - 1 { OverEmpty(rows, files[..|files| - 1], k); }
  }

  /** A run that found nothing over and nothing grown: every file is within the
      limit or within its row. */
  lemma CleanFile(rows: seq<Row>, states: seq<State>, observed: seq<nat>, files: seq<File>, k: nat)
    requires StatesOf(rows, states, observed, files) && Over(rows, files) == [] && StateCount(states, Grown) == 0
    requires DistinctFiles(files) && k < |files| && files[k].loc > LIMIT
    ensures exists j :: 0 <= j < |rows| && rows[j].path == files[k].path && files[k].loc <= rows[j].recorded
  {
    hide Lookup, StateCount, Over;
    OverEmpty(rows, files, k);
    LookupFile(files, k);
    var j := FirstIndex(rows, files[k].path);
    CountZero(states, Grown, j);
  }

  lemma {:induction false} FirstExists(rows: seq<Row>, path: bytes)
    requires HasRow(rows, path)
    ensures exists j :: 0 <= j < |rows| && rows[j].path == path && First(rows, j)
    decreases |rows|
  {
    var k :| 0 <= k < |rows| && rows[k].path == path;
    if !First(rows, k) {
      var i :| 0 <= i < k && rows[i].path == rows[k].path;
      assert rows[..k][i].path == path;
      FirstExists(rows[..k], path);
      var j :| 0 <= j < k && rows[..k][j].path == path && First(rows[..k], j);
      assert forall h :: 0 <= h < j ==> rows[h] == rows[..k][h];
      assert rows[j] == rows[..k][j] && First(rows, j);
    }
  }

  ghost function FirstIndex(rows: seq<Row>, path: bytes): (j: nat)
    requires HasRow(rows, path)
    ensures j < |rows| && rows[j].path == path && First(rows, j)
  {
    FirstExists(rows, path);
    var j :| 0 <= j < |rows| && rows[j].path == path && First(rows, j);
    j
  }

  /** A row with no ceiling, or above it. */
  ghost predicate Mints(rows: seq<Row>, ceiling: bytes -> int) {
    exists r :: r in rows && (ceiling(r.path) < 0 || ceiling(r.path) < r.recorded)
  }

  lemma {:induction false} MintsIff(lines: seq<bytes>, ceiling: bytes -> int)
    ensures AnyMinted(lines, ceiling) <==> Mints(RowsOf(lines), ceiling)
    decreases |lines|
  {
    hide Parse;
    if lines != [] {
      var p, rest := Parse(lines[0]), lines[1..];
      MintsIff(rest, ceiling);
      AnyMintedFirst(lines, ceiling);
      assert IsRow(p) ==> RowsOf(lines)[0] == Row(p.path, p.num) && RowsOf(lines)[1..] == RowsOf(rest);
      if IsRow(p) { MintsFirst(RowsOf(lines), ceiling); }
    }
  }

  lemma AnyMintedFirst(lines: seq<bytes>, ceiling: bytes -> int)
    requires lines != []
    ensures AnyMinted(lines, ceiling) <==> Minted(Parse(lines[0]), ceiling) || AnyMinted(lines[1..], ceiling)
  {
    hide Parse, Minted;
    if i :| 0 <= i < |lines| && Minted(Parse(lines[i]), ceiling) {
      if i > 0 { assert lines[1..][i - 1] == lines[i]; }
    }
    if i :| 0 <= i < |lines| - 1 && Minted(Parse(lines[1..][i]), ceiling) { assert lines[i + 1] == lines[1..][i]; }
  }

  lemma MintsFirst(rows: seq<Row>, ceiling: bytes -> int)
    requires rows != []
    ensures Mints(rows, ceiling) <==>
            ceiling(rows[0].path) < 0 || ceiling(rows[0].path) < rows[0].recorded || Mints(rows[1..], ceiling)
  {
    assert rows == [rows[0]] + rows[1..] && rows[0] in rows;
    if r :| r in rows[1..] && (ceiling(r.path) < 0 || ceiling(r.path) < r.recorded) { assert r in rows; }
  }

  /** main: load, scan, fix if asked, verdict. Exit 2 refuses a hollow scan or a
      minted exemption. For distinct paths the verdict of a --fix run is the
      verdict of a fresh run on the file it leaves. A pass on the closed baseline
      means every scanned file is within the limit or its compiled ceiling. */
  method Gate(lines: seq<bytes>, files: seq<File>, fix: bool, closed: bool, ceiling: bytes -> int)
    returns (exit: nat, out: seq<bytes>)
    ensures exit <= 2 && (exit == 2 <==> files == [] || (closed && Mints(RowsOf(lines), ceiling)))
    ensures exit == 2 || !fix ==> out == lines
    ensures exit != 2 && fix ==> out == EmitLines(RowsOf(lines), files, lines)
    ensures exit != 2 && fix && DistinctPaths(lines) ==> out == FixLines(lines, files)
    ensures exit != 2 ==>
              var rows := RowsOf(lines);
              (exit == 1 <==> Fails(rows, files, fix && EmitCount(rows, files, lines) > 0))
    ensures exit != 2 && DistinctPaths(lines) && DistinctFiles(files) ==> (exit == 1 <==> Breach(RowsOf(out), files))
    ensures exit != 2 && fix && DistinctPaths(lines) && DistinctFiles(files) ==>
              forall q :: q in RowsOf(out) <==> Tightened(RowsOf(lines), files, q)
    ensures exit == 0 && closed && DistinctFiles(files) ==>
              forall f :: f in files ==> f.loc <= LIMIT || f.loc <= ceiling(f.path)
  {
    hide Parse, RowsOf, FixLines, LineChanges, Lookup, StatesOf, Over, Violates, StateCount, DistinctPaths, AnyMinted,
      DistinctFiles, EmitLines, EmitCount, Fails, Breach, Tightened, Mints;
    MintsIff(lines, ceiling);
    var run := new Run();
    run.Load(lines, closed, ceiling);
    ghost var rows, failed := run.rows, run.failed;
    assert files[..0] == [];
    for k := 0 to |files|
      invariant run.Scanned(files[..k]) && run.rows == rows && run.failed == failed
    {
      assert files[..k + 1] == files[..k] + [files[k]];
      run.Classify(files[k], files[..k]);
    }
    assert files[..|files|] == files;
    out := lines;
    if run.failed || run.scanned == 0 { return 2, lines; }
    var changed := 0;
    if fix { out, changed := run.Rewrite(lines, files); }
    if DistinctPaths(lines) {
      EmitDistinct(lines, files, |lines|);
      assert lines[..|lines|] == lines;
    }
    var t := run.Summarize(changed > 0);
    exit := if |run.over| + t.grown + t.retired + t.unseen > 0 then 1 else 0;
    TallyFails(rows, run.states, run.observed, files, changed > 0);
    if DistinctPaths(lines) && DistinctFiles(files) {
      VerdictIs(lines, files, run.states, run.observed, fix, changed, out);
      ViolatesIff(RowsOf(out), files);
      if fix { RowsTightened(lines, files); }
    }
    if exit == 0 && closed && DistinctFiles(files) {
      forall f | f in files ensures f.loc <= LIMIT || f.loc <= ceiling(f.path) {
        var k :| 0 <= k < |files| && files[k] == f;
        if f.loc > LIMIT { CleanFile(rows, run.states, run.observed, files, k); }
      }
    }
  }

  lemma RowsTightened(lines: seq<bytes>, files: seq<File>)
    requires DistinctFiles(files)
    ensures forall q :: q in RowsOf(FixLines(lines, files)) <==> Tightened(RowsOf(lines), files, q)
  {
    hide RowsOf, FixLines, FixRows, Tightened, DistinctFiles;
    FixedRows(lines, files);
    forall q ensures q in FixRows(RowsOf(lines), files) <==> Tightened(RowsOf(lines), files, q) {
      FixRowsIff(RowsOf(lines), files, q);
    }
  }

  /** The row that stands for the path is in this state. */
  predicate InState(rows: seq<Row>, files: seq<File>, path: bytes, st: State) {
    var r := FirstRow(rows, path);
    r.Some? && StateOf(r.value, files) == st
  }

  /** A row that has to go. */
  predicate Stale(rows: seq<Row>, files: seq<File>, path: bytes) {
    InState(rows, files, path, Retired) || InState(rows, files, path, Unseen)
  }

  ghost predicate Repeats(rows: seq<Row>) {
    exists k :: 0 <= k < |rows| && !First(rows, k)
  }

  /** What a run fails for: files over the limit without a row, rows that grew, and,
      unless a fix changed something, rows to be dropped and repeated rows. */
  ghost predicate Fails(rows: seq<Row>, files: seq<File>, fixed: bool) {
    || Over(rows, files) != []
    || (exists path :: InState(rows, files, path, Grown))
    || (!fixed && (Repeats(rows) || exists path :: Stale(rows, files, path)))
  }

  lemma {:induction false} CountSome(states: seq<State>, st: State)
    requires StateCount(states, st) > 0
    ensures exists k :: 0 <= k < |states| && states[k] == st
  {
    if states[|states| - 1] != st {
      var t := states[..|states| - 1];
      CountSome(t, st);
      var k :| 0 <= k < |t| && t[k] == st;
      assert states[k] == st;
    }
  }

  lemma StateAt(rows: seq<Row>, states: seq<State>, observed: seq<nat>, files: seq<File>, st: State)
    requires StatesOf(rows, states, observed, files)
    ensures st != Unseen ==> (StateCount(states, st) > 0 <==> exists path :: InState(rows, files, path, st))
    ensures st == Unseen ==>
              (StateCount(states, st) > 0 <==> Repeats(rows) || exists path :: InState(rows, files, path, st))
  {
    hide StateCount, StateOf;
    if StateCount(states, st) > 0 {
      CountSome(states, st);
      var k :| 0 <= k < |states| && states[k] == st;
      if First(rows, k) {
        FirstRowIs(rows, rows[k].path, k);
        assert InState(rows, files, rows[k].path, st);
      }
    } else {
      forall k | 0 <= k < |states| ensures states[k] != st { CountZero(states, st, k); }
      forall path | InState(rows, files, path, st) ensures false {
        FirstRowFound(rows, path);
        var k := FirstIndex(rows, path);
        FirstRowIs(rows, path, k);
      }
    }
  }

  /** The tally says what the run fails for. */
  lemma TallyFails(rows: seq<Row>, states: seq<State>, observed: seq<nat>, files: seq<File>, fixed: bool)
    requires StatesOf(rows, states, observed, files)
    ensures var t := Settled(TallyOf(states), fixed);
            |Over(rows, files)| + t.grown + t.retired + t.unseen > 0 <==> Fails(rows, files, fixed)
  {
    hide StatesOf, StateCount, Over, InState, Repeats;
    StateAt(rows, states, observed, files, Grown);
    StateAt(rows, states, observed, files, Retired);
    StateAt(rows, states, observed, files, Unseen);
    StaleIs(rows, files);
  }

  lemma StaleIs(rows: seq<Row>, files: seq<File>)
    ensures (exists path :: Stale(rows, files, path)) <==>
              || (exists path :: InState(rows, files, path, Retired))
              || (exists path :: InState(rows, files, path, Unseen))
  {
    hide InState;
    if path :| InState(rows, files, path, Retired) { assert Stale(rows, files, path); }
    if path :| InState(rows, files, path, Unseen) { assert Stale(rows, files, path); }
  }

  lemma VerdictIs(lines: seq<bytes>, files: seq<File>, states: seq<State>, observed: seq<nat>, fix: bool, changed: nat,
                  out: seq<bytes>)
    requires StatesOf(RowsOf(lines), states, observed, files) && DistinctPaths(lines) && DistinctFiles(files)
    requires if fix then out == FixLines(lines, files) && changed == LineChanges(lines, files)
             else out == lines && changed == 0
    ensures var t := Settled(TallyOf(states), changed > 0);
            |Over(RowsOf(lines), files)| + t.grown + t.retired + t.unseen > 0 <==> Violates(RowsOf(out), files)
  {
    hide RowsOf, FixLines, LineChanges, StateOf, StateCount, Over, Count, FixRows;
    var rows := RowsOf(lines);
    RowsDistinct(lines);
    forall st ensures StateCount(states, st) == Count(rows, files, st) { CountsAgree(rows, states, files, st); }
    if fix {
      if changed == 0 {
        UnchangedLines(lines, files);
      } else {
        FixedRows(lines, files);
        FixVerdict(rows, files);
      }
    }
  }
}
