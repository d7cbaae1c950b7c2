/** do_seal and do_check, and the theorem that ties them: checking a sealed
    manifest says 0 exactly for the sealed files, provided some path has a '/'. */
module SealCheck {
  import opened Bytes
  import opened Wrappers
  import opened StrCmp
  import opened SealPath
  import opened SealMerkle
  import opened SealTree
  import opened SealLines
  import opened SealManifest
  import opened SealText
  import opened Stdio
  import opened Seal

  /* ---- do_seal ------------------------------------------------------------ */

  lemma {:induction false} ConcatAppend(a: seq<bytes>, x: bytes)
    ensures Concat(a + [x]) == Concat(a) + x
  {
    if a == [] {
      assert [x][1..] == [];
      assert x + [] == x;
    } else {
      assert (a + [x])[0] == a[0] && (a + [x])[1..] == a[1..] + [x];
      ConcatAppend(a[1..], x);
    }
  }

  /** Appending one line at a time, in the order of a list of lines. */
  method WriteLines(text0: bytes, ghost before: seq<bytes>, lines: seq<bytes>) returns (text: bytes)
    requires text0 == Concat(before)
    ensures text == Concat(before + lines)
  {
    hide Concat;
    text := text0;
    assert before + lines[..0] == before;
    for i := 0 to |lines|
      invariant text == Concat(before + lines[..i])
    {
      ConcatAppend(before + lines[..i], lines[i]);
      assert before + lines[..i + 1] == before + lines[..i] + [lines[i]];
      text := text + lines[i];
    }
    assert lines[..|lines|] == lines;
  }

  /** The emitted order: header, files, sections, TREE, ROOT. */
  method WriteManifest(header: seq<bytes>, v: View) returns (text: bytes)
    requires v.root.Some? && v.tree.Some?
    ensures text == Print(header, v)
  {
    hide FileLines, SectionLines, HexLine;
    text := WriteLines([], [], header);
    assert [] + header == header;
    text := WriteLines(text, header, FileLines(v.files));
    text := WriteLines(text, header + FileLines(v.files), SectionLines(v.secs));
    text := WriteLines(text, header + FileLines(v.files) + SectionLines(v.secs),
                       [HexLine(TreeWord(), v.tree.value), HexLine(RootWord(), v.root.value)]);
  }

  method FileRecs(h: Hash, ghost F: Files, ents: seq<Entry>) returns (fs: seq<FileLine>)
    requires EntriesOf(h, F, ents)
    ensures FilesAre(h, F, fs)
  {
    hide Listing, Hex, KeysBy, LeafPreimage, ValidFiles, Ascending;
    EntryPaths(h, F, ents);
    fs := [];
    for i := 0 to |ents|
      invariant |fs| == i
      invariant forall j :: 0 <= j < i ==> Listing(F.Keys)[j] in F && fs[j] == FileRec(h, F, Listing(F.Keys)[j])
    {
      assert ents[i] in ents && Paths(ents)[i] == ents[i].path;
      fs := fs + [FileLine(ents[i].path, Hex(ents[i].hash))];
    }
  }

  /** The SECTION records of nodes[1..]; none is refused by the formatter. */
  method SectionRecs(h: Hash, ghost F: Files, nodes: seq<DNode>) returns (ok: bool, ss: seq<Section>)
    requires ValidFiles(F) && |F| <= MAX_FILES && NodesFor(F, nodes) && |nodes| > 0
    requires forall k :: 0 <= k < |nodes| ==> Done(h, F, nodes[k])
    ensures ok && SectionsAre(h, F, ss)
  {
    hide Listing, Hex, NodeDigest, Dirs, Below, ChildKeys, ValidFiles, Sealable;
    ok, ss := true, [];
    var k := 1;
    while k < |nodes|
      invariant 1 <= k <= |nodes| && |ss| == k - 1 && ok
      invariant forall i :: 0 <= i < |ss| ==> ss[i] == SecRec(h, F, Listing(Dirs(F))[i + 1])
    {
      assert Done(h, F, nodes[k]);
      var s := Section(nodes[k].path, nodes[k].files, Hex(nodes[k].digest));
      assert s == SecRec(h, F, Listing(Dirs(F))[k - 1 + 1]);
      SectionRecGood(h, F, k - 1, s);
      var v := PathVerdict(s.name);
      if v != Accept || !IsHex64(s.hex) { ok := false; return; }
      ss := ss + [s];
      k := k + 1;
    }
  }

  datatype SealError = Input(e: InputError) | OverLimit | InternalError

  /** `seal` writes exactly the manifest of the sealed map, and refuses only bad
      input, an empty set and sets past the reader's limits. */
  method DoSeal(h: Hash, disk: Files, manifest: bytes, data: bytes, header: seq<bytes>)
    returns (r: Result<bytes, SealError>, ghost v: View)
    ensures r.Ok? <==> InputOk(disk, manifest, data) && Sealed(disk, manifest, data) != map[]
                       && WithinLimits(Sealed(disk, manifest, data))
    ensures r.Ok? ==> IsViewOf(h, Sealed(disk, manifest, data), v) && r.value == Print(header, v)
    ensures r.Err? ==> r.error != InternalError && (r.error.Input? <==> !InputOk(disk, manifest, data))
  {
    hide InputOk, EntriesOf, Sealed, NodesFor, Done, Tree, Root, Print, ValidFiles, FilesAre, SectionsAre, Dirs, Below,
      ChildKeys;
    v := EMPTY_VIEW;
    var input := ReadAndHash(h, disk, manifest, data);
    if input.Err? { return Err(Input(input.error)), v; }
    var ents := input.value;
    ghost var F := Sealed(disk, manifest, data);
    EntryPaths(h, F, ents);
    var root := ComputeRoot(h, F, ents);
    var sections := ComputeSections(h, F, ents);
    NodeCount(F, sections.nodes);
    if |ents| > MAX_FILES || |sections.nodes| == 0 || |sections.nodes| - 1 > MAX_SECTIONS {
      return Err(OverLimit), v;
    }
    var fs := FileRecs(h, F, ents);
    var ok, ss := SectionRecs(h, F, sections.nodes);
    if !ok { return Err(InternalError), v; }
    var view := View(Some(Hex(root)), Some(Hex(sections.tree)), ss, fs);
    var text := WriteManifest(header, view);
    return Ok(text), view;
  }

  lemma NodeCount(F: Files, nodes: seq<DNode>)
    requires F == map[] ==> nodes == []
    requires F != map[] ==> NodesFor(F, nodes)
    ensures F == map[] ==> |nodes| == 0
    ensures F != map[] ==> |nodes| == |Dirs(F)| > 0
  {
    hide Dirs, Listing;
    if F != map[] { RootIsDir(F); }
  }

  /* ---- do_check ----------------------------------------------------------------- */

  /** The fgets loop: no complaint exactly for a text that is the lines of a
      view, and then that view. */
  method ReadManifest(text: bytes) returns (rd: Reader)
    ensures rd == ReadText(Reader(EMPTY_VIEW, false), text)
    ensures forall v :: rd == Reader(v, false) <==> IsManifest(text, v)
  {
    hide Feed, FgetsLen, IsManifest;
    forall v ensures ReadText(Reader(EMPTY_VIEW, false), text) == Reader(v, false) <==> IsManifest(text, v) {
      ReadTextIff(text, v);
    }
    rd := Reader(EMPTY_VIEW, false);
    var rest := text;
    while rest != []
      invariant ReadText(rd, rest) == ReadText(Reader(EMPTY_VIEW, false), text)
      decreases |rest|
    {
      var n := FgetsLen(rest, LINE_BUF - 1);
      rd := Feed(rd, rest[..n]);
      rest := rest[n..];
    }
  }

  /** verify_files: 0 exactly when the file lines are the entries, in order. */
  method VerifyFiles(fs: seq<FileLine>, ents: seq<Entry>) returns (rc: int)
    ensures rc == 0 || rc == 1
    ensures rc == 0
        <==> |fs| == |ents| && forall i :: 0 <= i < |fs| ==> fs[i] == FileLine(ents[i].path, Hex(ents[i].hash))
  {
    hide Hex;
    rc := if |fs| != |ents| then 1 else 0;
    var lim := if |fs| < |ents| then |fs| else |ents|;
    for i := 0 to lim
      invariant rc == 0 || rc == 1
      invariant rc == 0
          <==> |fs| == |ents| && forall j :: 0 <= j < i ==> fs[j] == FileLine(ents[j].path, Hex(ents[j].hash))
    {
      if fs[i].path != ents[i].path {
        rc := 1;
      } else if fs[i].hex != Hex(ents[i].hash) {
        rc := 1;
      }
    }
  }

  /** The last section of that name, as the lookup loop finds it. */
  method FindSection(ss: seq<Section>, name: bytes) returns (r: Option<Section>)
    ensures r == None <==> forall j :: 0 <= j < |ss| ==> ss[j].name != name
    ensures r.Some? ==> r.value in ss && r.value.name == name
  {
    r := None;
    for j := 0 to |ss|
      invariant r == None <==> forall i :: 0 <= i < j ==> ss[i].name != name
      invariant r.Some? ==> r.value in ss && r.value.name == name
    {
      if ss[j].name == name { r := Some(ss[j]); }
    }
  }

  function SecOf(n: DNode): Section { Section(n.path, n.files, Hex(n.digest)) }

  /** verify_sections on a manifest without repeated names: 2 without SECTION or
      TREE lines, 0 exactly when the sections are those of nodes[1..] and TREE matches. */
  method VerifySections(mv: View, nodes: seq<DNode>, tree: bytes) returns (rc: int)
    requires DistinctNames(mv.secs)
    ensures rc == 0 || rc == 1 || rc == 2
    ensures rc == 2 <==> mv.secs == [] || mv.tree == None
    ensures rc == 0 <==> mv.secs != [] && mv.tree == Some(Hex(tree))
                         && (forall k :: 1 <= k < |nodes| ==> SecOf(nodes[k]) in mv.secs)
                         && (forall s :: s in mv.secs ==> HasNode(s, nodes))
  {
    hide Hex;
    if mv.secs == [] || mv.tree == None { return 2; }
    rc := 0;
    var k := 1;
    while k < |nodes|
      invariant 1 <= k
      invariant rc == 0 || rc == 1
      invariant rc == 0 <==> forall i :: 1 <= i < k && i < |nodes| ==> SecOf(nodes[i]) in mv.secs
    {
      var found := FindSection(mv.secs, nodes[k].path);
      if found == None {
        rc := 1;
      } else {
        UniqueSection(mv.secs, found.value, nodes[k]);
        if found.value.count != nodes[k].files || found.value.hex != Hex(nodes[k].digest) { rc := 1; }
      }
      k := k + 1;
    }
    var orphans := OrphanSections(mv.secs, nodes);
    if orphans { rc := 1; }
    if mv.tree.value != Hex(tree) { rc := 1; }
  }

  lemma UniqueSection(ss: seq<Section>, s: Section, n: DNode)
    requires DistinctNames(ss) && s in ss && s.name == n.path
    ensures SecOf(n) in ss <==> s == SecOf(n)
  {
    hide Hex;
    var i :| 0 <= i < |ss| && ss[i] == s;
    if SecOf(n) in ss {
      var j :| 0 <= j < |ss| && ss[j] == SecOf(n);
      assert i == j;
    }
  }

  predicate HasNode(s: Section, nodes: seq<DNode>) {
    exists k :: 1 <= k < |nodes| && nodes[k].path == s.name
  }

  method OrphanSections(ss: seq<Section>, nodes: seq<DNode>) returns (any: bool)
    ensures any <==> exists s :: s in ss && !HasNode(s, nodes)
  {
    any := false;
    for j := 0 to |ss|
      invariant any <==> exists i :: 0 <= i < j && !HasNode(ss[i], nodes)
    {
      var still := false;
      var k := 1;
      while k < |nodes|
        invariant 1 <= k
        invariant still <==> exists i :: 1 <= i < k && i < |nodes| && nodes[i].path == ss[j].name
      {
        if ss[j].name == nodes[k].path { still := true; }
        k := k + 1;
      }
      if !still { any := true; }
    }
    if any {
      var i :| 0 <= i < |ss| && !HasNode(ss[i], nodes);
      assert ss[i] in ss;
    }
  }

  /** A view that records exactly F. */
  ghost predicate Seals(h: Hash, F: Files, v: View)
    requires ValidFiles(F)
  {
    && F != map[]
    && v.root == Some(Hex(Root(h, F))) && v.tree == Some(Hex(Tree(h, F)))
    && FilesAre(h, F, v.files)
    && v.secs != []
    && forall s :: s in v.secs <==> IsSectionOf(h, F, s)
  }

  /** What `check` accepts: the lines of a view that records exactly F. */
  ghost predicate Matches(h: Hash, F: Files, text: bytes)
    requires ValidFiles(F)
  {
    exists v :: IsManifest(text, v) && Seals(h, F, v)
  }

  lemma MatchesRead(h: Hash, F: Files, text: bytes)
    requires ValidFiles(F)
    ensures var rd := ReadText(Reader(EMPTY_VIEW, false), text);
            Matches(h, F, text) <==> !rd.bad && Seals(h, F, rd.view)
  {
    hide IsManifest, Seals, ReadText, ValidFiles;
    var rd := ReadText(Reader(EMPTY_VIEW, false), text);
    ReadTextIff(text, rd.view);
    if v :| IsManifest(text, v) && Seals(h, F, v) {
      ReadTextIff(text, v);
    }
  }

  /** A manifest `check` gives a verdict on. */
  ghost predicate Checkable(text: bytes) {
    exists v :: IsManifest(text, v) && v.root.Some? && v.tree.Some? && v.secs != []
  }

  ghost predicate IsSectionOf(h: Hash, F: Files, s: Section)
    requires ValidFiles(F)
  {
    s.name in Dirs(F) && s.name != [] && s == SecRec(h, F, s.name)
  }

  /** `check` returns 0 exactly for a matching manifest, and 2 exactly for a text
      that is not a manifest with ROOT, TREE and SECTION lines or for bad input. */
  method DoCheck(h: Hash, disk: Files, manifest: bytes, data: bytes, text: bytes) returns (rc: int)
    ensures rc == 0 || rc == 1 || rc == 2
    ensures rc == 0 <==> InputOk(disk, manifest, data) && ValidFiles(Sealed(disk, manifest, data))
                         && Matches(h, Sealed(disk, manifest, data), text)
    ensures rc == 2 <==> !Checkable(text) || !InputOk(disk, manifest, data)
  {
    hide InputOk, EntriesOf, Sealed, NodesFor, Done, Tree, Root, ValidFiles, FilesAre, ReadText, DistinctNames, Hex,
      IsSectionOf, Matches, IsManifest;
    var rd := ReadManifest(text);
    assert !rd.bad ==> rd == Reader(rd.view, false);
    if ValidFiles(Sealed(disk, manifest, data)) { MatchesRead(h, Sealed(disk, manifest, data), text); }
    if rd.view.root == None { return 2; }
    if rd.bad { return 2; }
    ManifestNames(text, rd.view);
    var input := ReadAndHash(h, disk, manifest, data);
    if input.Err? { return 2; }
    var ents := input.value;
    ghost var F := Sealed(disk, manifest, data);
    EntryPaths(h, F, ents);
    var root := ComputeRoot(h, F, ents);
    rc := if rd.view.root.value != Hex(root) then 1 else 0;
    var files := VerifyFiles(rd.view.files, ents);
    VerifiedFiles(h, F, ents, rd.view.files);
    if files != 0 { rc := 1; }
    var sections := ComputeSections(h, F, ents);
    var src := VerifySections(rd.view, sections.nodes, sections.tree);
    VerifiedSections(h, F, sections.nodes, rd.view.secs);
    assert rd.view.secs != [] ==> rd.view.secs[0] in rd.view.secs;
    if src == 2 { rc := 2; } else if src == 1 && rc != 2 { rc := 1; }
  }

  lemma VerifiedFiles(h: Hash, F: Files, ents: seq<Entry>, fs: seq<FileLine>)
    requires EntriesOf(h, F, ents)
    ensures FilesAre(h, F, fs) <==>
            |fs| == |ents| && forall i :: 0 <= i < |fs| ==> fs[i] == FileLine(ents[i].path, Hex(ents[i].hash))
  {
    hide Listing, Hex, KeysBy, LeafPreimage, ValidFiles, Ascending;
    EntryPaths(h, F, ents);
    forall i | 0 <= i < |ents|
      ensures Listing(F.Keys)[i] in F
              && FileRec(h, F, Listing(F.Keys)[i]) == FileLine(ents[i].path, Hex(ents[i].hash))
    {
      assert ents[i] in ents && Paths(ents)[i] == ents[i].path;
    }
  }

  lemma VerifiedSections(h: Hash, F: Files, nodes: seq<DNode>, ss: seq<Section>)
    requires ValidFiles(F) && DistinctNames(ss)
    requires F == map[] ==> nodes == []
    requires F != map[] ==> NodesFor(F, nodes)
    requires forall k :: 0 <= k < |nodes| ==> Done(h, F, nodes[k])
    ensures F != map[] ==>
      ((forall s :: s in ss <==> IsSectionOf(h, F, s)) <==>
       (forall k :: 1 <= k < |nodes| ==> SecOf(nodes[k]) in ss) && (forall s :: s in ss ==> HasNode(s, nodes)))
    ensures F == map[] ==> forall s :: !HasNode(s, nodes)
  {
    hide Listing, Hex, ValidFiles, NodeDigest, Dirs, Below, ChildKeys;
    if F != map[] {
      forall s ensures IsSectionOf(h, F, s) <==> exists k :: 1 <= k < |nodes| && s == SecOf(nodes[k]) {
        SectionNode(h, F, nodes, s);
      }
      if (forall k :: 1 <= k < |nodes| ==> SecOf(nodes[k]) in ss) && (forall s :: s in ss ==> HasNode(s, nodes)) {
        forall s | s in ss ensures IsSectionOf(h, F, s) {
          var k :| 1 <= k < |nodes| && nodes[k].path == s.name;
          UniqueSection(ss, s, nodes[k]);
        }
      }
    }
  }

  lemma SectionNode(h: Hash, F: Files, nodes: seq<DNode>, s: Section)
    requires ValidFiles(F) && F != map[] && NodesFor(F, nodes)
    requires forall k :: 0 <= k < |nodes| ==> Done(h, F, nodes[k])
    ensures IsSectionOf(h, F, s) <==> exists k :: 1 <= k < |nodes| && s == SecOf(nodes[k])
  {
    hide Listing, Hex, ValidFiles, NodeDigest, Dirs, Below, ChildKeys, Ascending;
    var l := Listing(Dirs(F));
    RootNode(h, F, nodes);
    if IsSectionOf(h, F, s) {
      assert s.name in l;
      var k :| 0 <= k < |l| && l[k] == s.name;
      assert nodes[k].path == s.name && Done(h, F, nodes[k]);
    }
    if k :| 1 <= k < |nodes| && s == SecOf(nodes[k]) {
      AscendingNotFirst(l, k);
      assert Done(h, F, nodes[k]);
    }
  }

  /** A manifest read without complaint never repeats a section name. */
  lemma ManifestNames(text: bytes, v: View)
    requires IsManifest(text, v)
    ensures DistinctNames(v.secs)
  {
    hide DistinctNames, GoodRecord, Concat;
    var rs :| Records(rs, v) && text == Concat(LinesOf(rs));
  }

  /* ---- seal, then check -------------------------------------------------------------- */

  ghost predicate HasDirectory(F: Files) {
    exists p :: p in F && SLASH in p
  }

  /** There is a SECTION line exactly when some path has a directory. */
  lemma SectionsExist(F: Files)
    requires ValidFiles(F) && F != map[]
    ensures |Dirs(F)| > 1 <==> HasDirectory(F)
  {
    hide Dirs, Sealable, Under;
    RootIsDir(F);
    if p :| p in F && SLASH in p {
      var d := Parent(p);
      SealableSplit(p);
      UnderStep(d, p);
      DirsMember(F, d);
      TwoMembers(Dirs(F), [], d);
    }
    if |Dirs(F)| > 1 {
      var d := OtherMember(Dirs(F), []);
      DirsMember(F, d);
      var p :| p in F && Under(d, p);
      UnderIndex(d, p);
      assert p[|d|] == SLASH;
    }
  }

  lemma TwoMembers(s: set<bytes>, a: bytes, b: bytes)
    requires a in s && b in s && a != b
    ensures |s| > 1
  {
    SubsetSize({a, b}, s);
  }

  lemma OtherMember(s: set<bytes>, a: bytes) returns (b: bytes)
    requires |s| > 1
    ensures b in s && b != a
  {
    if s - {a} == {} {
      SubsetSize(s, {a});
    }
    b :| b in s - {a};
  }

  lemma SectionsAreAll(h: Hash, F: Files, ss: seq<Section>)
    requires ValidFiles(F) && F != map[] && SectionsAre(h, F, ss)
    ensures forall s :: s in ss <==> IsSectionOf(h, F, s)
  {
    hide Listing, Hex, ValidFiles, NodeDigest, Dirs, Below, Ascending;
    var l := Listing(Dirs(F));
    RootIsDir(F);
    RootIsFirst(F);
    forall s ensures s in ss <==> IsSectionOf(h, F, s) {
      if s in ss {
        var i :| 0 <= i < |ss| && ss[i] == s;
        AscendingNotFirst(l, i + 1);
      }
      if IsSectionOf(h, F, s) {
        assert s.name in l;
        var k :| 0 <= k < |l| && l[k] == s.name;
        assert ss[k - 1] == SecRec(h, F, l[k - 1 + 1]);
      }
    }
  }

  lemma RootIsFirst(F: Files)
    requires [] in Dirs(F)
    ensures |Listing(Dirs(F))| > 0 && Listing(Dirs(F))[0] == []
  {
    hide Dirs, Listing;
    var l := Listing(Dirs(F));
    assert [] in l;
    HeadIsLeast(l, []);
  }

  /** Equal file lines: equal maps, unless two contents collide. */
  lemma FileLinesBind(h: Hash, F: Files, G: Files, fs: seq<FileLine>)
    requires FilesAre(h, F, fs) && FilesAre(h, G, fs) && NoCollision(h, F.Values + G.Values)
    ensures F == G
  {
    hide Listing, Hex, NoCollision, Pairs, Ascending;
    var s, t := Listing(F.Keys), Listing(G.Keys);
    var x, y := Pairs(h, F, s), Pairs(h, G, t);
    forall i | 0 <= i < |fs| ensures x[i] == y[i] {
      assert fs[i] == FileRec(h, F, s[i]) && fs[i] == FileRec(h, G, t[i]);
      HexInjective(Sha3(h, F[s[i]]), Sha3(h, G[t[i]]));
    }
    assert x == y;
    PairsDetermineFiles(h, F, G);
  }

  /** Checking the manifest sealed from F against G says 0 exactly when G is F,
      and then only if some sealed path has a directory. */
  lemma SealThenCheck(h: Hash, header: seq<bytes>, F: Files, v: View, G: Files)
    requires IsHeader(header) && IsViewOf(h, F, v) && WithinLimits(F)
    requires ValidFiles(G) && NoCollision(h, F.Values + G.Values)
    ensures Matches(h, G, Print(header, v)) <==> F == G && HasDirectory(F)
  {
    hide ReadText, Print, Root, Tree, Dirs, Writable, FilesAre, Hex, IsSectionOf, Matches, ValidFiles, NoCollision,
      HasDirectory;
    SealedViewPrintable(h, F, v);
    ReadPrint(header, v);
    MatchesRead(h, G, Print(header, v));
    SectionsExist(F);
    SectionsAreAll(h, F, v.secs);
    if Matches(h, G, Print(header, v)) {
      FileLinesBind(h, F, G, v.files);
    }
  }

  /** Sealing a set without directories is a downgrade check refuses, even on
      unchanged files: one file `a` in the repository root. */
  lemma FlatSealIsRefused(h: Hash, header: seq<bytes>, v: View)
    requires IsHeader(header) && IsViewOf(h, map[Ascii("a") := []], v)
    ensures WithinLimits(map[Ascii("a") := []])
    ensures !Matches(h, map[Ascii("a") := []], Print(header, v))
  {
    hide ReadText, Print, Root, Tree, Dirs, Writable, FilesAre, Hex, IsSectionOf, Matches, ValidFiles;
    var F: Files := map[Ascii("a") := []];
    assert Ascii("a") == [97];
    assert !HasDirectory(F);
    SectionsExist(F);
    RootIsDir(F);
    TwoMembersNot(Dirs(F), []);
    SealedViewPrintable(h, F, v);
    ReadPrint(header, v);
    MatchesRead(h, F, Print(header, v));
  }

  lemma TwoMembersNot(s: set<bytes>, a: bytes)
    requires a in s && |s| <= 1
    ensures |s| == 1
  {
  }

  /** The two runs of the tool, on two disks and two input streams. */
  method SealAndCheck(h: Hash, header: seq<bytes>, manifest: bytes,
                      disk: Files, data: bytes, disk': Files, data': bytes)
    returns (sealed: bool, rc: int)
    requires IsHeader(header)
    requires NoCollision(h, Sealed(disk, manifest, data).Values + Sealed(disk', manifest, data').Values)
    ensures sealed <==> InputOk(disk, manifest, data) && Sealed(disk, manifest, data) != map[]
                        && WithinLimits(Sealed(disk, manifest, data))
    ensures sealed ==> (rc == 0 <==> InputOk(disk', manifest, data')
                                     && Sealed(disk', manifest, data') == Sealed(disk, manifest, data)
                                     && HasDirectory(Sealed(disk, manifest, data)))
  {
    hide InputOk, Sealed, WithinLimits, HasDirectory, Matches, IsViewOf, Print, NoCollision, ValidFiles;
    var r, v := DoSeal(h, disk, manifest, data, header);
    sealed, rc := r.Ok?, 2;
    if sealed {
      rc := DoCheck(h, disk', manifest, data', r.value);
      if InputOk(disk', manifest, data') {
        SealedIsValid(disk', manifest, data');
        SealThenCheck(h, header, Sealed(disk, manifest, data), v, Sealed(disk', manifest, data'));
      }
    }
  }
}
