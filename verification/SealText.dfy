/** The texts read_manifest accepts: the lines of a view in any order, ROOT last,
    with comments and blank lines between them, and no other text at all. */
module SealText {
  import opened Bytes
  import opened Wrappers
  import opened Stdio
  import opened SealLines
  import opened SealManifest

  /** One line of a manifest, by what it says. */
  datatype Record = Note(line: bytes) | OfFile(file: FileLine) | OfSection(sec: Section) | OfTree(hex: bytes)
                  | OfRoot(hex: bytes)

  function LineOf(r: Record): bytes {
    match r
    case Note(line) => line
    case OfFile(f) => FileLineText(f)
    case OfSection(s) => SectionLine(s)
    case OfTree(hex) => HexLine(TreeWord(), hex)
    case OfRoot(hex) => HexLine(RootWord(), hex)
  }

  /** A note is a comment or the blank line. */
  ghost predicate GoodRecord(r: Record) {
    match r
    case Note(line) => Clean(line) && (line[0] == HASH_MARK || line[0] == LF)
    case OfFile(f) => GoodFileLine(f)
    case OfSection(s) => GoodSection(s)
    case OfTree(hex) => IsHex64(hex)
    case OfRoot(hex) => IsHex64(hex)
  }

  function LinesOf(rs: seq<Record>): (lines: seq<bytes>)
    ensures |lines| == |rs| && forall i :: 0 <= i < |rs| ==> lines[i] == LineOf(rs[i])
  {
    if rs == [] then [] else LinesOf(rs[..|rs| - 1]) + [LineOf(rs[|rs| - 1])]
  }

  function FilesIn(rs: seq<Record>): seq<FileLine> {
    if rs == [] then []
    else FilesIn(rs[..|rs| - 1]) + (if rs[|rs| - 1].OfFile? then [rs[|rs| - 1].file] else [])
  }

  function SectionsIn(rs: seq<Record>): seq<Section> {
    if rs == [] then []
    else SectionsIn(rs[..|rs| - 1]) + (if rs[|rs| - 1].OfSection? then [rs[|rs| - 1].sec] else [])
  }

  function TreesIn(rs: seq<Record>): seq<bytes> {
    if rs == [] then []
    else TreesIn(rs[..|rs| - 1]) + (if rs[|rs| - 1].OfTree? then [rs[|rs| - 1].hex] else [])
  }

  function Once(x: Option<bytes>): seq<bytes> {
    if x.Some? then [x.value] else []
  }

  /** The records of a view: each file and section in its order, TREE at most
      once, and ROOT on the last line or nowhere. */
  ghost predicate Records(rs: seq<Record>, v: View) {
    && (forall i :: 0 <= i < |rs| ==> GoodRecord(rs[i]))
    && FilesIn(rs) == v.files && |v.files| <= MAX_FILES
    && SectionsIn(rs) == v.secs && |v.secs| <= MAX_SECTIONS && DistinctNames(v.secs)
    && TreesIn(rs) == Once(v.tree)
    && (forall i :: 0 <= i < |rs| && rs[i].OfRoot? ==> i == |rs| - 1)
    && v.root == (if rs != [] && rs[|rs| - 1].OfRoot? then Some(rs[|rs| - 1].hex) else None)
  }

  /** A text that is the lines of a view and nothing else. */
  ghost predicate IsManifest(text: bytes, v: View) {
    exists rs :: Records(rs, v) && text == Concat(LinesOf(rs))
  }

  /* ---- one more record ----------------------------------------------------------- */

  /** What one line may add to a view. */
  ghost predicate Adds(v: View, r: Record, w: View) {
    && v.root == None && GoodRecord(r)
    && match r
       case Note(_) => w == v
       case OfFile(f) => |v.files| < MAX_FILES && w == v.(files := v.files + [f])
       case OfSection(s) =>
         |v.secs| < MAX_SECTIONS && !HasSection(v, s.name) && w == v.(secs := v.secs + [s])
       case OfTree(hex) => v.tree == None && w == v.(tree := Some(hex))
       case OfRoot(hex) => w == v.(root := Some(hex))
  }

  lemma Snoc(rs: seq<Record>, r: Record)
    ensures (rs + [r])[..|rs|] == rs && (rs + [r])[|rs|] == r
    ensures FilesIn(rs + [r]) == FilesIn(rs) + (if r.OfFile? then [r.file] else [])
    ensures SectionsIn(rs + [r]) == SectionsIn(rs) + (if r.OfSection? then [r.sec] else [])
    ensures TreesIn(rs + [r]) == TreesIn(rs) + (if r.OfTree? then [r.hex] else [])
    ensures LinesOf(rs + [r]) == LinesOf(rs) + [LineOf(r)]
  {
    assert (rs + [r])[..|rs|] == rs;
  }

  lemma ExtendForward(rs: seq<Record>, v: View, r: Record, w: View)
    requires Records(rs, v) && Adds(v, r, w)
    ensures Records(rs + [r], w)
  {
    hide GoodRecord, LineOf, FilesIn, SectionsIn, TreesIn;
    Snoc(rs, r);
    forall i | 0 <= i < |rs| + 1 ensures GoodRecord((rs + [r])[i]) {
      if i < |rs| { assert (rs + [r])[i] == rs[i]; }
    }
    forall i | 0 <= i < |rs| ensures !(rs + [r])[i].OfRoot? {
      assert (rs + [r])[i] == rs[i];
    }
  }

  /** The view before the last record. */
  lemma ExtendBack(rs: seq<Record>, r: Record, w: View) returns (v: View)
    requires Records(rs + [r], w)
    ensures Records(rs, v) && Adds(v, r, w)
  {
    hide GoodRecord, LineOf, FilesIn, SectionsIn, TreesIn;
    Snoc(rs, r);
    var all := rs + [r];
    assert GoodRecord(all[|rs|]);
    v := View(None, if r.OfTree? then None else w.tree, SectionsIn(rs), FilesIn(rs));
    forall i | 0 <= i < |rs| ensures GoodRecord(rs[i]) && !rs[i].OfRoot? {
      assert all[i] == rs[i];
    }
    assert DistinctNames(v.secs) by {
      assert forall i :: 0 <= i < |v.secs| ==> v.secs[i] == w.secs[i];
    }
    if r.OfSection? {
      FreshName(v.secs, [r.sec]);
    }
    if r.OfTree? {
      assert |TreesIn(rs) + [r.hex]| == |TreesIn(rs)| + 1 && (TreesIn(rs) + [r.hex])[|TreesIn(rs)|] == r.hex;
    }
    assert !r.OfFile? ==> FilesIn(rs) + [] == FilesIn(rs);
    assert !r.OfSection? ==> SectionsIn(rs) + [] == SectionsIn(rs);
    assert !r.OfTree? ==> TreesIn(rs) + [] == TreesIn(rs);
  }

  /* ---- one line -------------------------------------------------------------------- */

  /** The line of a record is read as that record. */
  lemma FeedRecord(v: View, r: Record, w: View)
    requires Adds(v, r, w)
    ensures Clean(LineOf(r)) && Feed(Reader(v, false), LineOf(r)) == Reader(w, false)
  {
    hide Feed, Clean, GoodFileLine, GoodSection, IsHex64, FileLineText, SectionLine, HexLine, HasSection;
    match r
    case Note(line) =>
      assert line != [] by { CleanNotEmpty(line); }
      FeedNote(v, line);
    case OfFile(f) => FeedFile(Reader(v, false), f);
    case OfSection(s) => FeedSection(Reader(v, false), s);
    case OfTree(hex) => FeedTree(Reader(v, false), hex);
    case OfRoot(hex) => FeedRoot(Reader(v, false), hex);
  }

  lemma FeedNote(v: View, line: bytes)
    requires Clean(line) && (line[0] == HASH_MARK || line[0] == LF) && v.root == None
    ensures Feed(Reader(v, false), line) == Reader(v, false)
  {
    hide Feed;
    FeedClean(Reader(v, false), line);
  }

  /** A piece fgets returns that is seen with its newline is seen whole. */
  lemma {:induction false} VisibleIsWhole(chunk: bytes)
    requires Visible(chunk) != [] && Visible(chunk)[|Visible(chunk)| - 1] == LF
    requires forall i :: 0 <= i < |chunk| - 1 ==> chunk[i] != LF
    ensures Visible(chunk) == chunk && NulFree(chunk)
  {
    var rest := chunk[1..];
    if Visible(rest) == [] {
      assert chunk[0] == LF;
      assert |chunk| == 1;
    } else {
      VisibleIsWhole(rest);
    }
  }

  /** A piece read without complaint is the line of a record. */
  lemma FedRecord(v: View, chunk: bytes) returns (r: Record)
    requires |v.files| <= MAX_FILES && |v.secs| <= MAX_SECTIONS
    requires Piece(chunk, LINE_BUF - 1) && !Feed(Reader(v, false), chunk).bad
    ensures LineOf(r) == chunk && Adds(v, r, Feed(Reader(v, false), chunk).view)
  {
    hide ParseLine, Adds, LineOf;
    assert PhysicalOk(Visible(chunk));
    VisibleIsWhole(chunk);
    assert Clean(chunk);
    r := ParsedRecord(v, chunk);
  }

  lemma ParsedRecord(v: View, line: bytes) returns (r: Record)
    requires |v.files| <= MAX_FILES && |v.secs| <= MAX_SECTIONS
    requires Clean(line) && line != [] && !ParseLine(v, line).bad
    ensures LineOf(r) == line && Adds(v, r, ParseLine(v, line).view)
  {
    hide ParseHexLine, ParseSection, ParseFileLine, HasSection, HexLine, SectionLine, FileLineText, GoodFileLine,
      GoodSection, IsHex64, RootWord, TreeWord;
    assert PhysicalLine(line);
    if line[0] == HASH_MARK || line[0] == LF || line[0] == CR {
      r := Note(line);
    } else if ParseHexLine(line, RootWord()).Parsed? {
      r := OfRoot(ParseHexLine(line, RootWord()).rec);
      HexLineIff(line, RootWord(), r.hex);
    } else if ParseHexLine(line, TreeWord()).Parsed? {
      r := OfTree(ParseHexLine(line, TreeWord()).rec);
      HexLineIff(line, TreeWord(), r.hex);
    } else if ParseSection(line).Parsed? {
      r := OfSection(ParseSection(line).rec);
      SectionLineIff(line, r.sec);
    } else {
      r := OfFile(ParseFileLine(line).rec);
      FileLineIff(line, r.file);
    }
  }

  /* ---- whole texts ------------------------------------------------------------------ */

  /** The lines of the records of a view read as that view. */
  lemma {:induction false} ReadRecords(rs: seq<Record>, v: View)
    requires Records(rs, v)
    ensures AllClean(LinesOf(rs))
    ensures FeedAll(Reader(EMPTY_VIEW, false), LinesOf(rs)) == Reader(v, false)
    decreases |rs|
  {
    hide Feed, Clean, Adds, LineOf, Records;
    if rs == [] {
      assert v == EMPTY_VIEW by { NoRecords(v); }
    } else {
      var front, r := rs[..|rs| - 1], rs[|rs| - 1];
      assert front + [r] == rs;
      var u := ExtendBack(front, r, v);
      ReadRecords(front, u);
      FeedRecord(u, r, v);
      Snoc(front, r);
      var start := Reader(EMPTY_VIEW, false);
      FeedAllSplit(start, LinesOf(front), [LineOf(r)]);
      FeedOne(FeedAll(start, LinesOf(front)), LineOf(r));
    }
  }

  lemma NoRecords(v: View)
    requires Records([], v)
    ensures v == EMPTY_VIEW
  {
    assert v.tree.Some? ==> Once(v.tree) != [];
  }

  lemma FeedOne(rd: Reader, line: bytes)
    ensures FeedAll(rd, [line]) == Feed(rd, line)
  {
    hide Feed;
    assert [line][1..] == [];
  }

  /** A complaint is never taken back. */
  lemma {:induction false} BadStays(rd: Reader, text: bytes)
    requires rd.bad
    ensures ReadText(rd, text).bad
    decreases |text|
  {
    hide ParseLine, Visible, FgetsLen;
    if text != [] {
      var n := FgetsLen(text, LINE_BUF - 1);
      BadStays(Feed(rd, text[..n]), text[n..]);
    }
  }

  /** A text read without complaint is the lines of the records of what was read. */
  lemma {:induction false} ReadIsRecords(v: View, done: seq<Record>, text: bytes) returns (rs: seq<Record>)
    requires Records(done, v) && !ReadText(Reader(v, false), text).bad
    ensures Records(done + rs, ReadText(Reader(v, false), text).view)
    ensures text == Concat(LinesOf(rs))
    decreases |text|
  {
    hide Feed, Adds, LineOf, Records, LinesOf, FgetsLen;
    if text == [] {
      rs := [];
      assert done + [] == done;
    } else {
      var n := FgetsLen(text, LINE_BUF - 1);
      var rd := Feed(Reader(v, false), text[..n]);
      if rd.bad { BadStays(rd, text[n..]); }
      FgetsPiece(text, LINE_BUF - 1);
      RecordLimits(done, v);
      var r := FedRecord(v, text[..n]);
      ExtendForward(done, v, r, rd.view);
      var rest := ReadIsRecords(rd.view, done + [r], text[n..]);
      rs := [r] + rest;
      assert done + [r] + rest == done + rs;
      FirstLine(r, rest);
      assert text == text[..n] + text[n..];
    }
  }

  lemma RecordLimits(rs: seq<Record>, v: View)
    requires Records(rs, v)
    ensures |v.files| <= MAX_FILES && |v.secs| <= MAX_SECTIONS
  {
  }

  lemma FirstLine(r: Record, rest: seq<Record>)
    ensures Concat(LinesOf([r] + rest)) == LineOf(r) + Concat(LinesOf(rest))
  {
    hide LineOf;
    var rs := [r] + rest;
    assert LinesOf(rs)[1..] == LinesOf(rest) by {
      forall i | 0 <= i < |rest| ensures LinesOf(rs)[1..][i] == LinesOf(rest)[i] {
        assert rs[i + 1] == rest[i];
      }
    }
  }

  /** read_manifest takes a text without complaint exactly if the text is the
      lines of the view it returns. */
  lemma ReadTextIff(text: bytes, v: View)
    ensures ReadText(Reader(EMPTY_VIEW, false), text) == Reader(v, false) <==> IsManifest(text, v)
  {
    hide ReadText, Records, LinesOf, Concat, Clean, FeedAll;
    var start := Reader(EMPTY_VIEW, false);
    if ReadText(start, text) == Reader(v, false) {
      assert Records([], EMPTY_VIEW) by { EmptyRecords(); }
      var rs := ReadIsRecords(EMPTY_VIEW, [], text);
      assert [] + rs == rs;
    }
    if IsManifest(text, v) {
      var rs :| Records(rs, v) && text == Concat(LinesOf(rs));
      ReadRecords(rs, v);
      ReadJoin(start, LinesOf(rs));
    }
  }

  lemma EmptyRecords()
    ensures Records([], EMPTY_VIEW)
  {
  }
}
