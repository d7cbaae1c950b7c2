/** read_manifest: the manifest as a view, line by line, and the writer whose
    output it reads back. */
module SealManifest {
  import opened Bytes
  import opened Wrappers
  import opened SealPath
  import opened Decimal
  import opened Stdio
  import opened SealLines

  const MAX_SECTIONS: nat := 512
  const MAX_FILES: nat := 4096
  const LINE_BUF: nat := 4096
  const HASH_MARK: byte := 35

  datatype View = View(root: Option<bytes>, tree: Option<bytes>, secs: seq<Section>, files: seq<FileLine>)

  const EMPTY_VIEW: View := View(None, None, [], [])

  /** The view so far, and whether any line was reported. */
  datatype Reader = Reader(view: View, bad: bool)

  /* ---- physical lines ------------------------------------------------------ */

  /** The C string fgets leaves in the buffer. */
  function Visible(chunk: bytes): bytes {
    if chunk == [] || chunk[0] == 0 then [] else [chunk[0]] + Visible(chunk[1..])
  }

  /** manifest_physical_line */
  predicate PhysicalOk(line: bytes) {
    line != [] && line[|line| - 1] == LF && CR !in line
  }

  lemma {:induction false} FgetsWholeLine(line: bytes, rest: bytes, room: nat)
    requires PhysicalLine(line) && |line| <= room
    ensures FgetsLen(line + rest, room) == |line|
  {
    var t := line + rest;
    if |line| > 1 {
      assert t[0] == line[0] && t[1..] == line[1..] + rest;
      FgetsWholeLine(line[1..], rest, room - 1);
    }
  }

  lemma {:induction false} VisibleWhole(line: bytes)
    requires NulFree(line)
    ensures Visible(line) == line
  {
    if line != [] { VisibleWhole(line[1..]); }
  }

  /* ---- one line ------------------------------------------------------------- */

  /** manifest_root_tree_line: None when the line is neither. */
  function RootTreeLine(mv: View, line: bytes): Option<Reader> {
    match ParseHexLine(line, RootWord())
    case Parsed(hex) => Some(Reader(mv.(root := Some(hex)), false))
    case Malformed => Some(Reader(mv, true))
    case NotThis =>
      match ParseHexLine(line, TreeWord())
      case Parsed(hex) => Some(Reader(mv.(tree := Some(hex)), mv.tree.Some?))
      case Malformed => Some(Reader(mv, true))
      case NotThis => None
  }

  predicate HasSection(mv: View, name: bytes) {
    exists k :: 0 <= k < |mv.secs| && mv.secs[k].name == name
  }

  /** manifest_section_line */
  function SectionLineStep(mv: View, line: bytes): Option<Reader> {
    match ParseSection(line)
    case Malformed => Some(Reader(mv, true))
    case NotThis => None
    case Parsed(s) =>
      if |mv.secs| == MAX_SECTIONS then Some(Reader(mv, true))
      else Some(Reader(mv.(secs := mv.secs + [s]), HasSection(mv, s.name)))
  }

  /** manifest_file_line */
  function FileLineStep(mv: View, line: bytes): Reader {
    match ParseFileLine(line)
    case Parsed(f) =>
      if |mv.files| == MAX_FILES then Reader(mv, true)
      else Reader(mv.(files := mv.files + [f]), false)
    case _ => Reader(mv, true)
  }

  /** manifest_parse_line */
  function ParseLine(mv: View, line: bytes): Reader
    requires line != []
  {
    if mv.root.Some? then Reader(mv, true)
    else if line[0] == HASH_MARK || line[0] == LF || line[0] == CR then Reader(mv, false)
    else
      var a := RootTreeLine(mv, line);
      if a.Some? then a.value
      else
        var b := SectionLineStep(mv, line);
        if b.Some? then b.value else FileLineStep(mv, line)
  }

  /** One turn of the read loop. */
  function Feed(rd: Reader, chunk: bytes): Reader {
    var line := Visible(chunk);
    if !PhysicalOk(line) then Reader(rd.view, true)
    else
      var r := ParseLine(rd.view, line);
      Reader(r.view, rd.bad || r.bad)
  }

  /** read_manifest over the whole text. */
  function ReadText(rd: Reader, text: bytes): Reader
    decreases |text|
  {
    if text == [] then rd
    else
      var n := FgetsLen(text, LINE_BUF - 1);
      ReadText(Feed(rd, text[..n]), text[n..])
  }

  /* ---- well-formed lines, one at a time -------------------------------------- */

  /** A line the writer emits: it fits the buffer and holds no stray byte. */
  ghost predicate Clean(line: bytes) {
    PhysicalLine(line) && NulFree(line) && |line| < LINE_BUF
  }

  function FeedAll(rd: Reader, lines: seq<bytes>): Reader
    decreases |lines|
  {
    if lines == [] then rd else FeedAll(Feed(rd, lines[0]), lines[1..])
  }

  /** Reading the concatenation of clean lines feeds exactly those lines. */
  lemma {:induction false} ReadJoin(rd: Reader, lines: seq<bytes>)
    requires forall i :: 0 <= i < |lines| ==> Clean(lines[i])
    ensures ReadText(rd, Concat(lines)) == FeedAll(rd, lines)
    decreases |lines|
  {
    hide Feed, PhysicalLine, FgetsLen, NulFree;
    if lines != [] {
      var text := Concat(lines);
      var line, rest := lines[0], Concat(lines[1..]);
      assert Clean(line);
      assert |line| > 0 by { CleanNotEmpty(line); }
      FgetsWholeLine(line, rest, LINE_BUF - 1);
      assert text[..|line|] == line && text[|line|..] == rest;
      ReadJoin(Feed(rd, line), lines[1..]);
    }
  }

  lemma CleanNotEmpty(line: bytes)
    requires Clean(line)
    ensures line != []
  {
  }

  lemma {:induction false} FeedAllSplit(rd: Reader, a: seq<bytes>, b: seq<bytes>)
    ensures FeedAll(rd, a + b) == FeedAll(FeedAll(rd, a), b)
    decreases |a|
  {
    hide Feed;
    if a == [] {
      assert a + b == b;
    } else {
      assert (a + b)[0] == a[0] && (a + b)[1..] == a[1..] + b;
      FeedAllSplit(Feed(rd, a[0]), a[1..], b);
    }
  }

  lemma FeedClean(rd: Reader, line: bytes)
    requires Clean(line)
    ensures line != []
      && Feed(rd, line) == Reader(ParseLine(rd.view, line).view, rd.bad || ParseLine(rd.view, line).bad)
  {
    hide ParseLine;
    VisibleWhole(line);
    assert PhysicalOk(line);
  }

  /** A comment line changes nothing before ROOT. */
  lemma FeedComment(rd: Reader, line: bytes)
    requires Clean(line) && line[0] == HASH_MARK && rd.view.root == None
    ensures Feed(rd, line) == rd
  {
    hide Feed;
    FeedClean(rd, line);
  }

  /* ---- the kinds are disjoint -------------------------------------------------- */

  lemma FirstBytes()
    ensures RootWord()[0] == 82 && TreeWord()[0] == 84 && SectionWord()[0] == 83
    ensures |RootWord()| == 4 && |TreeWord()| == 4 && |SectionWord()| == 7
  {
  }

  lemma SkipNeedsFirst(line: bytes, lit: bytes)
    requires line != [] && lit != [] && line[0] != lit[0]
    ensures Skip(line, lit) == None
  {
  }

  /** A file line is read as that file. */
  lemma FeedFile(rd: Reader, f: FileLine)
    requires GoodFileLine(f) && rd.view.root == None && |rd.view.files| < MAX_FILES
    ensures Clean(FileLineText(f))
    ensures Feed(rd, FileLineText(f)) == rd.(view := rd.view.(files := rd.view.files + [f]))
  {
    hide Feed, FileLineText, RootWord, TreeWord, SectionWord, GoodFileLine, Clean;
    var line := FileLineText(f);
    FileLineClean(f);
    FeedClean(rd, line);
    FirstBytes();
    SkipNeedsFirst(line, RootWord());
    SkipNeedsFirst(line, TreeWord());
    SkipNeedsFirst(line, SectionWord());
    FileLineIff(line, f);
  }

  lemma FileLineClean(f: FileLine)
    requires GoodFileLine(f)
    ensures Clean(FileLineText(f)) && PhysicalLine(FileLineText(f)) && IsHexByte(FileLineText(f)[0])
  {
    var line := FileLineText(f);
    SealableBytes(f.path);
    hide Sealable;
    assert line[0] == f.hex[0];
    var body := f.hex + (Sep() + f.path);
    assert line == body + [LF];
    assert forall i :: 0 <= i < |body| ==> body[i] >= 32;
  }

  lemma SealableBytes(p: bytes)
    requires Sealable(p)
    ensures |p| < PATH_MAX && forall i :: 0 <= i < |p| ==> p[i] >= 32
  {
  }

  /** A SECTION line is read as that section, once per name. */
  lemma FeedSection(rd: Reader, s: Section)
    requires GoodSection(s) && rd.view.root == None && |rd.view.secs| < MAX_SECTIONS && !HasSection(rd.view, s.name)
    ensures Clean(SectionLine(s))
    ensures Feed(rd, SectionLine(s)) == rd.(view := rd.view.(secs := rd.view.secs + [s]))
  {
    hide Feed, SectionLine, RootWord, TreeWord, SectionWord, GoodSection, Clean, HasSection;
    var line := SectionLine(s);
    SectionLineClean(s);
    FeedClean(rd, line);
    FirstBytes();
    SkipNeedsFirst(line, RootWord());
    SkipNeedsFirst(line, TreeWord());
    SectionLineIff(line, s);
  }

  lemma SectionLineClean(s: Section)
    requires GoodSection(s)
    ensures Clean(SectionLine(s)) && PhysicalLine(SectionLine(s)) && SectionLine(s)[0] == SectionWord()[0]
  {
    hide Sealable, SectionWord, Dec, PhysicalLine, NulFree;
    SealableBytes(s.name);
    WordBytes();
    DecBytes(s.count);
    DecBytes(|s.name|);
    var name := s.name + [LF];
    assert Tail(name, 256);
    assert Tail(Sep() + name, 258);
    assert Tail(s.hex + (Sep() + name), 322);
    TailField(Dec(|s.name|), s.hex + (Sep() + name), 322);
    var rest := Dec(|s.name|) + (Sep() + (s.hex + (Sep() + name)));
    TailField(Dec(s.count), rest, 344);
    assert Tail(SectionLine(s), 375);
    assert SectionLine(s)[0] == SectionWord()[0];
    TailClean(SectionLine(s), 375);
  }

  /** The end of a line: printable bytes, then its newline. */
  ghost predicate Tail(s: bytes, bound: nat) {
    0 < |s| <= bound && s[|s| - 1] == LF && forall i :: 0 <= i < |s| - 1 ==> s[i] >= 32
  }

  lemma TailField(ds: bytes, rest: bytes, bound: nat)
    requires |ds| <= 20 && (forall i :: 0 <= i < |ds| ==> ds[i] >= 32) && Tail(rest, bound)
    ensures Tail(ds + (Sep() + rest), bound + 22)
  {
  }

  lemma TailClean(s: bytes, bound: nat)
    requires Tail(s, bound) && bound < LINE_BUF
    ensures Clean(s) && PhysicalLine(s)
  {
  }

  lemma WordBytes()
    ensures forall i :: 0 <= i < |SectionWord()| ==> SectionWord()[i] >= 32
    ensures forall i :: 0 <= i < |RootWord()| ==> RootWord()[i] >= 32
    ensures forall i :: 0 <= i < |TreeWord()| ==> TreeWord()[i] >= 32
    ensures |SectionWord()| == 7 && |RootWord()| == 4 && |TreeWord()| == 4
  {
  }

  /** A 64-bit count prints in at most twenty digits. */
  lemma DecBytes(n: nat)
    requires n <= U64_MAX
    ensures |Dec(n)| <= 20 && forall i :: 0 <= i < |Dec(n)| ==> Dec(n)[i] >= 32
  {
    DecShort(n);
  }

  lemma HexLineClean(word: bytes, hex: bytes)
    requires (word == RootWord() || word == TreeWord()) && IsHex64(hex)
    ensures Clean(HexLine(word, hex)) && PhysicalLine(HexLine(word, hex)) && HexLine(word, hex)[0] == word[0]
  {
    WordBytes();
    hide RootWord, TreeWord;
    var body := word + Sep() + hex;
    assert HexLine(word, hex) == body + [LF];
    assert body[0] == word[0];
    assert forall i :: 0 <= i < |body| ==> body[i] >= 32;
  }

  lemma FeedTree(rd: Reader, hex: bytes)
    requires IsHex64(hex) && rd.view.root == None && rd.view.tree == None
    ensures Clean(HexLine(TreeWord(), hex))
    ensures Feed(rd, HexLine(TreeWord(), hex)) == rd.(view := rd.view.(tree := Some(hex)))
  {
    hide Feed, HexLine, RootWord, TreeWord, IsHex64, Clean;
    var line := HexLine(TreeWord(), hex);
    HexLineClean(TreeWord(), hex);
    FeedClean(rd, line);
    FirstBytes();
    SkipNeedsFirst(line, RootWord());
    HexLineIff(line, TreeWord(), hex);
  }

  lemma FeedRoot(rd: Reader, hex: bytes)
    requires IsHex64(hex) && rd.view.root == None
    ensures Clean(HexLine(RootWord(), hex))
    ensures Feed(rd, HexLine(RootWord(), hex)) == rd.(view := rd.view.(root := Some(hex)))
  {
    hide Feed, HexLine, RootWord, IsHex64, Clean;
    var line := HexLine(RootWord(), hex);
    HexLineClean(RootWord(), hex);
    FeedClean(rd, line);
    FirstBytes();
    HexLineIff(line, RootWord(), hex);
  }

  /* ---- whole manifests ------------------------------------------------------------ */

  function FileLines(fs: seq<FileLine>): (r: seq<bytes>) {
    if fs == [] then [] else [FileLineText(fs[0])] + FileLines(fs[1..])
  }

  function SectionLines(ss: seq<Section>): (r: seq<bytes>) {
    if ss == [] then [] else [SectionLine(ss[0])] + SectionLines(ss[1..])
  }

  /** The header of the manifest is a list of comment lines. */
  ghost predicate IsHeader(header: seq<bytes>) {
    forall i :: 0 <= i < |header| ==> Clean(header[i]) && header[i][0] == HASH_MARK
  }

  function Lines(header: seq<bytes>, v: View): seq<bytes>
    requires v.root.Some? && v.tree.Some?
  {
    header + FileLines(v.files) + SectionLines(v.secs)
    + [HexLine(TreeWord(), v.tree.value), HexLine(RootWord(), v.root.value)]
  }

  /** What do_seal prints for a view. */
  function Print(header: seq<bytes>, v: View): bytes
    requires v.root.Some? && v.tree.Some?
  {
    Concat(Lines(header, v))
  }

  ghost predicate DistinctNames(ss: seq<Section>) {
    forall i, j :: 0 <= i < j < |ss| ==> ss[i].name != ss[j].name
  }

  /** A view the writer may print: good records, within the reader's limits. */
  ghost predicate Writable(v: View) {
    && v.root.Some? && IsHex64(v.root.value)
    && v.tree.Some? && IsHex64(v.tree.value)
    && |v.files| <= MAX_FILES && (forall i :: 0 <= i < |v.files| ==> GoodFileLine(v.files[i]))
    && |v.secs| <= MAX_SECTIONS && (forall i :: 0 <= i < |v.secs| ==> GoodSection(v.secs[i]))
    && DistinctNames(v.secs)
  }

  ghost predicate AllClean(lines: seq<bytes>) {
    forall i :: 0 <= i < |lines| ==> Clean(lines[i])
  }

  lemma {:induction false} FeedHeader(rd: Reader, header: seq<bytes>)
    requires IsHeader(header) && rd.view.root == None
    ensures FeedAll(rd, header) == rd && AllClean(header)
    decreases |header|
  {
    hide Feed, Clean;
    if header != [] {
      FeedComment(rd, header[0]);
      FeedHeader(rd, header[1..]);
    }
  }

  lemma {:induction false} FeedFiles(rd: Reader, fs: seq<FileLine>)
    requires rd.view.root == None && |rd.view.files| + |fs| <= MAX_FILES
    requires forall i :: 0 <= i < |fs| ==> GoodFileLine(fs[i])
    ensures FeedAll(rd, FileLines(fs)) == rd.(view := rd.view.(files := rd.view.files + fs))
    ensures AllClean(FileLines(fs))
    decreases |fs|
  {
    hide Feed, Clean, GoodFileLine;
    if fs == [] {
      assert rd.view.files + [] == rd.view.files;
    } else {
      FeedFile(rd, fs[0]);
      var next := Feed(rd, FileLineText(fs[0]));
      FeedFiles(next, fs[1..]);
      assert rd.view.files + [fs[0]] + fs[1..] == rd.view.files + fs;
    }
  }

  lemma {:induction false} FeedSections(rd: Reader, ss: seq<Section>)
    requires rd.view.root == None && |rd.view.secs| + |ss| <= MAX_SECTIONS
    requires forall i :: 0 <= i < |ss| ==> GoodSection(ss[i])
    requires DistinctNames(rd.view.secs + ss)
    ensures FeedAll(rd, SectionLines(ss)) == rd.(view := rd.view.(secs := rd.view.secs + ss))
    ensures AllClean(SectionLines(ss))
    decreases |ss|
  {
    hide Feed, Clean, GoodSection;
    if ss == [] {
      assert rd.view.secs + [] == rd.view.secs;
    } else {
      assert !HasSection(rd.view, ss[0].name) by { FreshName(rd.view.secs, ss); }
      FeedSection(rd, ss[0]);
      var next := Feed(rd, SectionLine(ss[0]));
      assert rd.view.secs + [ss[0]] + ss[1..] == rd.view.secs + ss;
      FeedSections(next, ss[1..]);
    }
  }

  lemma FreshName(a: seq<Section>, b: seq<Section>)
    requires DistinctNames(a + b) && b != []
    ensures forall k :: 0 <= k < |a| ==> a[k].name != b[0].name
  {
    forall k | 0 <= k < |a| ensures a[k].name != b[0].name {
      assert (a + b)[k] == a[k] && (a + b)[|a|] == b[0];
    }
  }

  /** Every printed manifest reads back as the view it was printed from. */
  lemma ReadPrint(header: seq<bytes>, v: View)
    requires IsHeader(header) && Writable(v)
    ensures ReadText(Reader(EMPTY_VIEW, false), Print(header, v)) == Reader(v, false)
  {
    var rd := Reader(EMPTY_VIEW, false);
    hide Feed, Clean, GoodSection, GoodFileLine, FeedAll, FileLines, SectionLines, HexLine, IsHex64, Concat, ReadText;
    var fl, sl := FileLines(v.files), SectionLines(v.secs);
    var tl, rl := HexLine(TreeWord(), v.tree.value), HexLine(RootWord(), v.root.value);
    FeedHeader(rd, header);
    FeedAllSplit(rd, header, fl);
    FeedFiles(rd, v.files);
    var rd1 := rd.(view := rd.view.(files := v.files));
    assert rd.view.files + v.files == v.files;
    FeedAllSplit(rd, header + fl, sl);
    assert rd1.view.secs + v.secs == v.secs;
    FeedSections(rd1, v.secs);
    var rd2 := rd1.(view := rd1.view.(secs := v.secs));
    FeedAllSplit(rd, header + fl + sl, [tl, rl]);
    FeedTree(rd2, v.tree.value);
    FeedRoot(rd2.(view := rd2.view.(tree := v.tree)), v.root.value);
    FeedTwo(rd2, tl, rl);
    assert AllClean(Lines(header, v));
    ReadJoin(rd, Lines(header, v));
  }

  lemma FeedTwo(rd: Reader, a: bytes, b: bytes)
    ensures FeedAll(rd, [a, b]) == Feed(Feed(rd, a), b)
  {
    hide Feed;
    assert [a, b][1..] == [b];
    assert FeedAll(Feed(rd, a), [b]) == FeedAll(Feed(Feed(rd, a), b), []);
  }
}
