/** compute_sections: the directory Merkle tree built without recursion, by
    walking the sorted directory list backwards, proved to give the recursive
    definition and never to reach one of its internal-error exits. */
module SealTree {
  import opened Bytes
  import opened Wrappers
  import opened StrCmp
  import opened SealPath
  import opened SealMerkle

  datatype Entry = Entry(path: bytes, hash: bytes, leaf: bytes)

  datatype DNode = DNode(path: bytes, digest: bytes, files: nat, children: nat)

  datatype Fatal = ChildOverflow | BadComponent | OrderViolated | NotPlaced | NotRoot | RootCount | BadPath

  datatype Sections = Internal(why: Option<Fatal>) | Built(nodes: seq<DNode>, tree: bytes)

  const ZERO_DIGEST: bytes := seq(HSZ, i => 0)

  function PathOf(e: Entry): bytes { e.path }

  function Paths(ents: seq<Entry>): (ps: seq<bytes>)
    ensures |ps| == |ents|
    ensures forall i :: 0 <= i < |ents| ==> ps[i] == ents[i].path
  {
    KeysBy(PathOf, ents)
  }

  /** ents is the path-sorted, hashed form of the file map F. */
  ghost predicate EntriesOf(h: Hash, F: Files, ents: seq<Entry>) {
    && ValidFiles(F)
    && Paths(ents) == Listing(F.Keys)
    && forall e :: e in ents ==>
         e.path in F && e.hash == Sha3(h, F[e.path]) && e.leaf == Sha3(h, LeafPreimage(e.path, F[e.path]))
  }

  lemma EntryPaths(h: Hash, F: Files, ents: seq<Entry>)
    requires EntriesOf(h, F, ents)
    ensures ValidFiles(F)
    ensures Ascending(Paths(ents))
    ensures forall p :: p in Paths(ents) <==> p in F
    ensures |ents| == |F|
  {
  }

  /* ---- counting ------------------------------------------------------------ */

  ghost function Below(F: Files, d: bytes): set<bytes> {
    set p | p in F && Under(d, p)
  }

  ghost function Direct(F: Files, d: bytes): set<bytes> {
    set p | p in F && Parent(p) == d
  }

  /** The files below d that are its own or go through one of dirs[..j]. */
  ghost function Covered(F: Files, d: bytes, dirs: seq<bytes>, j: nat): set<bytes>
    requires ValidFiles(F) && j <= |dirs|
  {
    set p | p in F && Under(d, p) && (Parent(p) == d || Toward(d, p) in dirs[..j])
  }

  lemma CoveredStart(F: Files, d: bytes, dirs: seq<bytes>)
    requires ValidFiles(F)
    ensures Covered(F, d, dirs, 0) == Direct(F, d)
  {
    hide Under, Toward;
    forall p | p in Direct(F, d) ensures p in Covered(F, d, dirs, 0) { UnderStep(d, p); }
  }

  lemma CoveredStep(F: Files, d: bytes, dirs: seq<bytes>, j: nat)
    requires ValidFiles(F) && j < |dirs| && Ascending(dirs)
    ensures |Covered(F, d, dirs, j + 1)| ==
            |Covered(F, d, dirs, j)| + (if dirs[j] != [] && Parent(dirs[j]) == d then |Below(F, dirs[j])| else 0)
  {
    hide Under, Toward, Sealable, Parent, Ascending;
    var a, b := Covered(F, d, dirs, j), Covered(F, d, dirs, j + 1);
    var c := dirs[j];
    assert dirs[..j + 1] == dirs[..j] + [c];
    if c != [] && Parent(c) == d {
      assert c !in dirs[..j] by {
        forall i | 0 <= i < j ensures dirs[i] != c { AscendingDistinct(dirs, i, j); }
      }
      forall p ensures p in b <==> p in a || p in Below(F, c) {
        if p in F && Under(c, p) {
          UnderParent(c, p);
          TowardUnique(d, p, c);
        }
      }
      forall p | p in a ensures p !in Below(F, c) {
        if p in Below(F, c) { TowardUnique(d, p, c); }
      }
      assert b == a + Below(F, c) && a !! Below(F, c);
    } else {
      forall p | p in b ensures p in a {
        if p in F && Under(d, p) && Parent(p) != d { assert Parent(Toward(d, p)) == d && Toward(d, p) != []; }
      }
      assert a == b;
    }
  }

  lemma CoveredAll(F: Files, d: bytes, dirs: seq<bytes>)
    requires ValidFiles(F) && forall c :: c in Dirs(F) ==> c in dirs
    ensures Covered(F, d, dirs, |dirs|) == Below(F, d)
  {
    hide Under, Toward, Sealable, Dirs;
    assert dirs[..|dirs|] == dirs;
    forall p | p in Below(F, d) ensures p in Covered(F, d, dirs, |dirs|) {
      if Parent(p) != d { DirsMember(F, Toward(d, p)); }
    }
  }

  ghost function PlacedIn(F: Files, dirs: seq<bytes>, x: nat): set<bytes>
    requires x <= |dirs|
  {
    set p | p in F && Parent(p) in dirs[x..]
  }

  lemma PlacedStep(F: Files, dirs: seq<bytes>, x: nat)
    requires x < |dirs| && Ascending(dirs)
    ensures |PlacedIn(F, dirs, x)| == |PlacedIn(F, dirs, x + 1)| + |Direct(F, dirs[x])|
  {
    hide Parent, Ascending;
    assert dirs[x..] == [dirs[x]] + dirs[x + 1..];
    assert dirs[x] !in dirs[x + 1..] by {
      forall i | x + 1 <= i < |dirs| ensures dirs[i] != dirs[x] { AscendingDistinct(dirs, x, i); }
    }
    var a, b := PlacedIn(F, dirs, x + 1), Direct(F, dirs[x]);
    assert a !! b && PlacedIn(F, dirs, x) == a + b;
  }

  lemma PlacedAll(F: Files, dirs: seq<bytes>)
    requires ValidFiles(F) && forall c :: c in Dirs(F) ==> c in dirs
    ensures PlacedIn(F, dirs, 0) == F.Keys
  {
    hide Under, Sealable, Dirs;
    assert dirs[0..] == dirs;
    forall p | p in F ensures Parent(p) in dirs {
      UnderStep(Parent(p), p);
      DirsMember(F, Parent(p));
    }
  }

  /* ---- collecting directories ----------------------------------------------- */

  /** The ancestor directories of p, nearest first. */
  ghost function Chain(p: bytes): (c: seq<bytes>)
    requires Sealable(p)
    decreases |p|
  {
    ParentStep(p);
    if Parent(p) == [] then [[]] else [Parent(p)] + Chain(Parent(p))
  }

  lemma {:induction false} ChainIsAncestors(p: bytes, d: bytes)
    requires Sealable(p)
    ensures d in Chain(p) <==> Under(d, p)
    decreases |p|
  {
    hide Under, Sealable, Parent;
    ParentStep(p);
    UnderStep(d, p);
    if Parent(p) != [] { ChainIsAncestors(Parent(p), d); }
  }

  /** The inner loop of collect_directories: a path's parent, then each parent's
      parent, the root last. */
  method AncestorChain(p: bytes) returns (chain: seq<bytes>)
    requires Sealable(p)
    ensures forall d :: d in chain <==> Under(d, p)
  {
    hide Under, Sealable, Parent;
    chain := [];
    var cur := Parent(p);
    ParentStep(p);
    while true
      invariant cur != [] ==> Sealable(cur)
      invariant chain + [cur] + (if cur == [] then [] else Chain(cur)) == Chain(p)
      decreases |cur|
    {
      chain := chain + [cur];
      if cur == [] { break; }
      ParentStep(cur);
      cur := Parent(cur);
    }
    assert chain == Chain(p);
    forall d ensures d in chain <==> Under(d, p) { ChainIsAncestors(p, d); }
  }

  /** collect_directories: the directories above each entry. */
  method CollectDirectories(paths: seq<bytes>) returns (dirs: seq<bytes>)
    requires forall p :: p in paths ==> Sealable(p)
    ensures forall d :: d in dirs <==> exists p :: p in paths && Under(d, p)
  {
    hide Under, Sealable, Parent;
    dirs := [];
    for i := 0 to |paths|
      invariant forall d :: d in dirs <==> exists p :: p in paths[..i] && Under(d, p)
    {
      var chain := AncestorChain(paths[i]);
      dirs := dirs + chain;
      assert paths[..i + 1] == paths[..i] + [paths[i]];
    }
    assert paths[..|paths|] == paths;
  }

  /* ---- children of one node --------------------------------------------------- */

  function KeyOf(k: Kid): bytes { ChildKey(k.name, k.isDir) }

  function Keys(ks: seq<Kid>): (r: seq<bytes>)
    ensures |r| == |ks|
    ensures forall a :: 0 <= a < |ks| ==> r[a] == KeyOf(ks[a])
  {
    KeysBy(KeyOf, ks)
  }

  /** ks holds, once each, the child records of d with the given keys. */
  ghost predicate KidsFor(h: Hash, F: Files, d: bytes, ks: seq<Kid>, keys: set<bytes>)
    requires ValidFiles(F) && d in Dirs(F) && keys <= ChildKeys(F, d)
  {
    && (forall k :: k in Keys(ks) <==> k in keys)
    && (forall kid :: kid in ks ==> KeyOf(kid) in ChildKeys(F, d) && kid == KidAt(h, F, d, KeyOf(kid)))
    && Distinct(Keys(ks))
  }

  lemma KidsForAppend(h: Hash, F: Files, d: bytes, ks: seq<Kid>, keys: set<bytes>, k: bytes)
    requires ValidFiles(F) && d in Dirs(F) && keys <= ChildKeys(F, d) && k in ChildKeys(F, d)
    requires KidsFor(h, F, d, ks, keys) && k !in keys
    ensures KidsFor(h, F, d, ks + [KidAt(h, F, d, k)], keys + {k})
  {
    hide KidAt, ChildKeys, Dirs, ValidFiles, ChildKey;
    KidGood(h, F, d, k);
    var kid := KidAt(h, F, d, k);
    var t := ks + [kid];
    assert KeyOf(kid) == k;
    assert Keys(t) == Keys(ks) + [k] by { KeysByConcat(KeyOf, ks, [kid]); }
    hide Keys, KeyOf, KeysBy;
    assert Distinct(Keys(t));
  }

  ghost function FileKeysUpTo(paths: seq<bytes>, d: bytes, i: nat): set<bytes>
    requires i <= |paths|
  {
    set p | p in paths[..i] && Parent(p) == d :: ChildKey(Base(p), false)
  }

  ghost function DirKeysUpTo(dirs: seq<bytes>, d: bytes, j: nat): set<bytes>
    requires j <= |dirs|
  {
    set c | c in dirs[..j] && c != [] && Parent(c) == d :: ChildKey(Base(c), true)
  }

  lemma FileKeysStep(F: Files, paths: seq<bytes>, d: bytes, i: nat)
    requires ValidFiles(F) && Ascending(paths) && i < |paths|
    requires forall p :: p in paths <==> p in F
    ensures FileKeysUpTo(paths, d, i) <= FileKeys(F, d)
    ensures Parent(paths[i]) != d ==> FileKeysUpTo(paths, d, i + 1) == FileKeysUpTo(paths, d, i)
    ensures Parent(paths[i]) == d ==>
              var k := ChildKey(Base(paths[i]), false);
              k !in FileKeysUpTo(paths, d, i) && k in FileKeys(F, d)
              && FileKeysUpTo(paths, d, i + 1) == FileKeysUpTo(paths, d, i) + {k}
  {
    hide Parent, Base, Ascending, Sealable;
    assert paths[..i + 1] == paths[..i] + [paths[i]];
    if Parent(paths[i]) == d {
      forall a | 0 <= a < i && Parent(paths[a]) == d ensures Base(paths[a]) != Base(paths[i]) {
        AscendingDistinct(paths, a, i);
        SealableSplit(paths[a]);
        SealableSplit(paths[i]);
      }
    }
  }

  lemma FileKeysAll(F: Files, paths: seq<bytes>, d: bytes)
    requires forall p :: p in paths <==> p in F
    ensures FileKeysUpTo(paths, d, |paths|) == FileKeys(F, d)
  {
    hide Parent, Base;
    assert paths[..|paths|] == paths;
  }

  lemma DirKeysStep(F: Files, dirs: seq<bytes>, d: bytes, j: nat)
    requires ValidFiles(F) && Ascending(dirs) && j < |dirs|
    requires forall c :: c in dirs <==> c in Dirs(F)
    ensures DirKeysUpTo(dirs, d, j) <= DirKeys(F, d)
    ensures !(dirs[j] != [] && Parent(dirs[j]) == d) ==> DirKeysUpTo(dirs, d, j + 1) == DirKeysUpTo(dirs, d, j)
    ensures dirs[j] != [] && Parent(dirs[j]) == d ==>
              var k := ChildKey(Base(dirs[j]), true);
              k !in DirKeysUpTo(dirs, d, j) && k in DirKeys(F, d)
              && DirKeysUpTo(dirs, d, j + 1) == DirKeysUpTo(dirs, d, j) + {k}
  {
    hide Parent, Base, Ascending, Sealable, Dirs;
    assert dirs[..j + 1] == dirs[..j] + [dirs[j]];
    if dirs[j] != [] && Parent(dirs[j]) == d {
      forall a | 0 <= a < j && dirs[a] != [] && Parent(dirs[a]) == d
        ensures ChildKey(Base(dirs[a]), true) != ChildKey(Base(dirs[j]), true)
      {
        AscendingDistinct(dirs, a, j);
        DirSealable(F, dirs[a]);
        DirSealable(F, dirs[j]);
        SealableSplit(dirs[a]);
        SealableSplit(dirs[j]);
        SplitLast(Base(dirs[a]), Base(dirs[j]));
      }
    }
  }

  lemma DirKeysStart(F: Files, dirs: seq<bytes>, d: bytes)
    ensures DirKeysUpTo(dirs, d, 0) == {}
    ensures FileKeys(F, d) + DirKeysUpTo(dirs, d, 0) == FileKeys(F, d)
  {
    hide FileKeys, Parent;
    assert DirKeysUpTo(dirs, d, 0) == {};
  }

  lemma SplitLast(a: bytes, b: bytes)
    ensures ChildKey(a, true) == ChildKey(b, true) ==> a == b
  {
    if ChildKey(a, true) == ChildKey(b, true) { SplitAt(a, [SLASH], b, [SLASH]); }
  }

  lemma DirKeysAll(F: Files, dirs: seq<bytes>, d: bytes)
    requires forall c :: c in dirs <==> c in Dirs(F)
    ensures DirKeysUpTo(dirs, d, |dirs|) == DirKeys(F, d)
  {
    hide Parent, Base, Dirs;
    assert dirs[..|dirs|] == dirs;
  }

  /** A file key never ends in '/', a directory key always does. */
  lemma FileDirKeysDisjoint(F: Files, d: bytes)
    requires ValidFiles(F)
    ensures FileKeys(F, d) !! DirKeys(F, d)
  {
    hide FileKeys, DirKeys, ValidFiles;
    forall k | k in FileKeys(F, d) ensures k !in DirKeys(F, d) {
      FileKeyMember(F, d, k);
      DirKeyMember(F, d, k);
    }
  }

  ghost function DirectUpTo(paths: seq<bytes>, d: bytes, i: nat): set<bytes>
    requires i <= |paths|
  {
    set p | p in paths[..i] && Parent(p) == d
  }

  lemma DirectStep(paths: seq<bytes>, d: bytes, i: nat)
    requires Ascending(paths) && i < |paths|
    ensures |DirectUpTo(paths, d, i + 1)| == |DirectUpTo(paths, d, i)| + (if Parent(paths[i]) == d then 1 else 0)
  {
    hide Parent, Ascending;
    assert paths[..i + 1] == paths[..i] + [paths[i]];
    assert paths[i] !in paths[..i] by {
      forall a | 0 <= a < i ensures paths[a] != paths[i] { AscendingDistinct(paths, a, i); }
    }
    if Parent(paths[i]) == d {
      assert DirectUpTo(paths, d, i + 1) == DirectUpTo(paths, d, i) + {paths[i]};
    } else {
      assert DirectUpTo(paths, d, i + 1) == DirectUpTo(paths, d, i);
    }
  }

  lemma DirectAll(F: Files, paths: seq<bytes>, d: bytes)
    requires forall p :: p in paths <==> p in F
    ensures DirectUpTo(paths, d, |paths|) == Direct(F, d)
  {
    hide Parent;
    assert paths[..|paths|] == paths;
  }

  /** After paths[..i]: one record for each of them that is a child of d. */
  ghost predicate FileInv(h: Hash, F: Files, d: bytes, paths: seq<bytes>, i: nat, kids: seq<Kid>)
    requires ValidFiles(F) && d in Dirs(F) && i <= |paths|
  {
    && FileKeysUpTo(paths, d, i) <= FileKeys(F, d)
    && KidsFor(h, F, d, kids, FileKeysUpTo(paths, d, i))
    && |kids| == |DirectUpTo(paths, d, i)|
  }

  lemma FileStart(h: Hash, F: Files, d: bytes, paths: seq<bytes>)
    requires ValidFiles(F) && d in Dirs(F)
    ensures FileInv(h, F, d, paths, 0, [])
  {
    hide Dirs, ValidFiles, FileKeys, Parent, KidAt;
    assert FileKeysUpTo(paths, d, 0) == {} && DirectUpTo(paths, d, 0) == {};
    KidsForEmpty(h, F, d);
  }

  lemma FileSkip(h: Hash, F: Files, d: bytes, paths: seq<bytes>, i: nat, kids: seq<Kid>)
    requires ValidFiles(F) && d in Dirs(F) && Ascending(paths) && i < |paths|
    requires forall p :: p in paths <==> p in F
    requires FileInv(h, F, d, paths, i, kids) && Parent(paths[i]) != d
    ensures FileInv(h, F, d, paths, i + 1, kids)
  {
    hide KidsFor, FileKeysUpTo, DirectUpTo, FileKeys, Dirs, ValidFiles, Ascending, Parent;
    DirectStep(paths, d, i);
    FileKeysStep(F, paths, d, i);
  }

  lemma FileTake(h: Hash, F: Files, d: bytes, ents: seq<Entry>, i: nat, kids: seq<Kid>)
    requires EntriesOf(h, F, ents) && d in Dirs(F) && i < |ents|
    requires FileInv(h, F, d, Paths(ents), i, kids) && Parent(ents[i].path) == d
    ensures FileInv(h, F, d, Paths(ents), i + 1, kids + [Kid(Base(ents[i].path), false, ents[i].leaf)])
  {
    hide KidsFor, FileKeysUpTo, DirectUpTo, FileKeys, Dirs, Ascending, Parent, Base, KidAt, EntriesOf, Paths,
         DirKeys, ValidFiles, GoodName, ChildKey;
    EntryPaths(h, F, ents);
    var paths := Paths(ents);
    DirectStep(paths, d, i);
    FileKeysStep(F, paths, d, i);
    FileKid(h, F, ents, i, d);
    KidsForAppend(h, F, d, kids, FileKeysUpTo(paths, d, i), ChildKey(Base(ents[i].path), false));
  }

  /** The file half of node_collect_children: the sealed files whose parent is d. */
  method CollectFiles(ghost h: Hash, ghost F: Files, ents: seq<Entry>, d: bytes, kidcap: nat)
    returns (why: Option<Fatal>, kids: seq<Kid>)
    requires EntriesOf(h, F, ents) && d in Dirs(F) && |ents| <= kidcap
    ensures why == None
    ensures KidsFor(h, F, d, kids, FileKeys(F, d))
    ensures |kids| == |Direct(F, d)| <= |ents|
  {
    hide KidsFor, EntriesOf, FileKeys, Ascending, Parent, Base, Dirs, FileInv, Direct, ValidFiles, Paths, KidAt;
    EntryPaths(h, F, ents);
    why, kids := None, [];
    ghost var paths := Paths(ents);
    FileStart(h, F, d, paths);
    var i := 0;
    while i < |ents|
      invariant why == None && |kids| <= i <= |ents|
      invariant FileInv(h, F, d, paths, i, kids)
    {
      var e := ents[i];
      if Parent(e.path) == d {
        if |kids| == kidcap { why := Some(ChildOverflow); return; }
        FileKid(h, F, ents, i, d);
        var name := Base(e.path);
        if name == [] || |name| >= NAME_MAX { why := Some(BadComponent); return; }
        FileTake(h, F, d, ents, i, kids);
        kids := kids + [Kid(name, false, e.leaf)];
      } else {
        FileSkip(h, F, d, paths, i, kids);
      }
      i := i + 1;
    }
    FileEnd(h, F, d, paths, kids);
  }

  lemma FileEnd(h: Hash, F: Files, d: bytes, paths: seq<bytes>, kids: seq<Kid>)
    requires ValidFiles(F) && d in Dirs(F)
    requires forall p :: p in paths <==> p in F
    requires FileInv(h, F, d, paths, |paths|, kids)
    ensures KidsFor(h, F, d, kids, FileKeys(F, d))
    ensures |kids| == |Direct(F, d)|
  {
    hide KidsFor, FileKeysUpTo, DirectUpTo, FileKeys, Dirs, ValidFiles, Direct;
    FileKeysAll(F, paths, d);
    DirectAll(F, paths, d);
  }

  lemma KidsForEmpty(h: Hash, F: Files, d: bytes)
    requires ValidFiles(F) && d in Dirs(F)
    ensures KidsFor(h, F, d, [], {})
  {
    hide KidAt, Dirs, ChildKeys;
  }

  lemma FileKid(h: Hash, F: Files, ents: seq<Entry>, i: nat, d: bytes)
    requires EntriesOf(h, F, ents) && d in Dirs(F) && i < |ents| && Parent(ents[i].path) == d
    ensures var k := ChildKey(Base(ents[i].path), false);
            k in ChildKeys(F, d) && GoodName(Base(ents[i].path))
            && KidAt(h, F, d, k) == Kid(Base(ents[i].path), false, ents[i].leaf)
  {
    hide Dirs, Listing, Sealable, Parent, Base;
    var p := ents[i].path;
    assert ents[i] in ents;
    SealableSplit(p);
    assert Base(p) in FileKeys(F, d);
    assert !IsDirKey(Base(p));
  }

  /* ---- the reverse walk ---------------------------------------------------------- */

  ghost predicate NodesFor(F: Files, nodes: seq<DNode>) {
    && |nodes| == |Dirs(F)|
    && forall j :: 0 <= j < |nodes| ==> nodes[j].path == Listing(Dirs(F))[j]
  }

  /** A finished node carries the recursive digest and the recursive file count. */
  ghost predicate Done(h: Hash, F: Files, node: DNode) {
    && ValidFiles(F) && node.path in Dirs(F)
    && node.digest == NodeDigest(h, F, node.path)
    && node.files == |Below(F, node.path)|
    && node.children == |ChildKeys(F, node.path)|
  }

  /** A child directory sorts after its parent: the reverse walk has finished it. */
  lemma ChildAfterParent(dirs: seq<bytes>, x: nat, j: nat)
    requires Ascending(dirs) && x < |dirs| && j < |dirs|
    requires dirs[j] != [] && Parent(dirs[j]) == dirs[x]
    ensures x < j
  {
    var c := dirs[j];
    assert Parent(c) == c[..|Parent(c)|] && |Parent(c)| < |c|;
    PrefixLt(dirs[x], c);
    LtAsymmetric(dirs[x], c);
  }

  lemma DirKid(h: Hash, F: Files, d: bytes, c: bytes)
    requires ValidFiles(F) && d in Dirs(F) && c in Dirs(F) && c != [] && Parent(c) == d
    ensures var k := ChildKey(Base(c), true);
            k in ChildKeys(F, d) && GoodName(Base(c))
            && KidAt(h, F, d, k) == Kid(Base(c), true, NodeDigest(h, F, c))
  {
    hide Dirs, Sealable, Parent, Base, FileKeys, DirKeys;
    DirSealable(F, c);
    SealableSplit(c);
    DirKeyIntro(F, d, c);
  }

  /** After dirs[..j]: the child records collected so far and the files counted. */
  ghost predicate SubdirInv(h: Hash, F: Files, d: bytes, dirs: seq<bytes>, j: nat, kids: seq<Kid>, below: nat)
    requires ValidFiles(F) && d in Dirs(F) && j <= |dirs|
  {
    && DirKeysUpTo(dirs, d, j) <= DirKeys(F, d)
    && KidsFor(h, F, d, kids, FileKeys(F, d) + DirKeysUpTo(dirs, d, j))
    && below == |Covered(F, d, dirs, j)|
  }

  lemma SubdirStart(h: Hash, F: Files, d: bytes, dirs: seq<bytes>, kids: seq<Kid>)
    requires ValidFiles(F) && d in Dirs(F)
    requires KidsFor(h, F, d, kids, FileKeys(F, d)) && |kids| == |Direct(F, d)|
    ensures SubdirInv(h, F, d, dirs, 0, kids, |kids|)
  {
    hide KidsFor, DirKeysUpTo, Covered, Direct, FileKeys, DirKeys, Dirs, ValidFiles;
    CoveredStart(F, d, dirs);
    DirKeysStart(F, dirs, d);
  }

  lemma SubdirSkip(h: Hash, F: Files, d: bytes, dirs: seq<bytes>, j: nat, kids: seq<Kid>, below: nat)
    requires ValidFiles(F) && d in Dirs(F) && Ascending(dirs) && j < |dirs|
    requires forall c :: c in dirs <==> c in Dirs(F)
    requires SubdirInv(h, F, d, dirs, j, kids, below)
    requires dirs[j] == [] || Parent(dirs[j]) != d
    ensures SubdirInv(h, F, d, dirs, j + 1, kids, below)
  {
    hide KidsFor, DirKeysUpTo, Covered, FileKeys, DirKeys, Dirs, ValidFiles, Ascending, Parent;
    CoveredStep(F, d, dirs, j);
    DirKeysStep(F, dirs, d, j);
  }

  lemma SubdirTake(h: Hash, F: Files, d: bytes, dirs: seq<bytes>, j: nat, kids: seq<Kid>, below: nat, node: DNode)
    requires ValidFiles(F) && d in Dirs(F) && Ascending(dirs) && j < |dirs|
    requires forall c :: c in dirs <==> c in Dirs(F)
    requires SubdirInv(h, F, d, dirs, j, kids, below)
    requires node.path == dirs[j] != [] && Parent(dirs[j]) == d && Done(h, F, node)
    ensures SubdirInv(h, F, d, dirs, j + 1, kids + [Kid(Base(node.path), true, node.digest)], below + node.files)
  {
    hide KidsFor, DirKeysUpTo, Covered, FileKeys, DirKeys, Dirs, ValidFiles, Ascending, Parent, Base, KidAt, NodeDigest;
    var k := ChildKey(Base(node.path), true);
    CoveredStep(F, d, dirs, j);
    DirKeysStep(F, dirs, d, j);
    DirKid(h, F, d, node.path);
    FileDirKeysDisjoint(F, d);
    var keys := FileKeys(F, d) + DirKeysUpTo(dirs, d, j);
    KidsForAppend(h, F, d, kids, keys, k);
    assert FileKeys(F, d) + DirKeysUpTo(dirs, d, j + 1) == keys + {k};
  }

  lemma SubdirEnd(h: Hash, F: Files, d: bytes, dirs: seq<bytes>, kids: seq<Kid>, below: nat)
    requires ValidFiles(F) && d in Dirs(F)
    requires forall c :: c in dirs <==> c in Dirs(F)
    requires SubdirInv(h, F, d, dirs, |dirs|, kids, below)
    ensures KidsFor(h, F, d, kids, ChildKeys(F, d))
    ensures below == |Below(F, d)|
  {
    hide KidsFor, DirKeysUpTo, Covered, FileKeys, DirKeys, Dirs, ValidFiles, Below;
    DirKeysAll(F, dirs, d);
    CoveredAll(F, d, dirs);
  }

  /** The directory half of node_collect_children: the finished subdirectories. */
  method CollectSubdirs(ghost h: Hash, ghost F: Files, nodes: seq<DNode>, x: nat, kidcap: nat, kids0: seq<Kid>)
    returns (why: Option<Fatal>, kids: seq<Kid>, below: nat)
    requires ValidFiles(F) && NodesFor(F, nodes) && x < |nodes| && nodes[x].path in Dirs(F)
    requires forall j :: x < j < |nodes| ==> Done(h, F, nodes[j])
    requires KidsFor(h, F, nodes[x].path, kids0, FileKeys(F, nodes[x].path))
    requires |kids0| == |Direct(F, nodes[x].path)| && |kids0| + |nodes| <= kidcap
    ensures why == None
    ensures KidsFor(h, F, nodes[x].path, kids, ChildKeys(F, nodes[x].path))
    ensures below == |Below(F, nodes[x].path)|
  {
    hide SubdirInv, KidsFor, Ascending, Parent, Base, Dirs, Listing, ValidFiles, Done, Direct, FileKeys,
         DirKeys, ChildKeys, Below, KidAt, NodeDigest, ChildKey;
    why, kids, below := None, kids0, |kids0|;
    var d := nodes[x].path;
    ghost var dirs := Listing(Dirs(F));
    SubdirStart(h, F, d, dirs, kids0);
    var j := 0;
    while j < |nodes|
      invariant why == None && j <= |nodes| && |kids| <= |kids0| + j
      invariant SubdirInv(h, F, d, dirs, j, kids, below)
    {
      var c := nodes[j].path;
      assert c == dirs[j];
      if c != [] && Parent(c) == d { ChildAfterParent(dirs, x, j); }
      if !(j == x || c == [] || Parent(c) != d) {
        if |kids| == kidcap { why := Some(ChildOverflow); return; }
        DirKid(h, F, d, c);
        var name := Base(c);
        if name == [] || |name| >= NAME_MAX { why := Some(BadComponent); return; }
        SubdirTake(h, F, d, dirs, j, kids, below, nodes[j]);
        kids := kids + [Kid(name, true, nodes[j].digest)];
        below := below + nodes[j].files;
      } else {
        SubdirSkip(h, F, d, dirs, j, kids, below);
      }
      j := j + 1;
    }
    SubdirEnd(h, F, d, dirs, kids, below);
  }

  /* ---- canonical order -------------------------------------------------------------- */

  /** Any strictly ordered arrangement of the children is the canonical one. */
  lemma CanonicalKids(h: Hash, F: Files, d: bytes, kids: seq<Kid>, r: seq<Kid>)
    requires ValidFiles(F) && d in Dirs(F) && KidsFor(h, F, d, kids, ChildKeys(F, d))
    requires multiset(r) == multiset(kids) && Ascending(Keys(r))
    ensures NodePreimage(d, r) == DirPreimage(h, F, d)
    ensures |r| == |ChildKeys(F, d)|
  {
    hide ChildKeys, Dirs, ValidFiles, Kids, KidAt, Listing, Ascending, NodePreimage, KeysBy, KeyOf;
    var l := Listing(ChildKeys(F, d));
    forall k ensures k in Keys(r) <==> k in l {
      SameKeys(KeyOf, r, kids, k);
    }
    AscendingUnique(Keys(r), l);
    assert r == Kids(h, F, d, l) by {
      forall i | 0 <= i < |r| ensures r[i] == Kids(h, F, d, l)[i] {
        assert r[i] in multiset(kids);
        assert r[i] in kids;
        assert KeyOf(r[i]) == l[i];
      }
    }
  }

  /** node_seal_children: sort, re-assert strict order, digest. */
  method SealNode(h: Hash, ghost F: Files, node: DNode, kids: seq<Kid>, below: nat)
    returns (why: Option<Fatal>, sealed: DNode)
    requires ValidFiles(F) && node.path in Dirs(F)
    requires KidsFor(h, F, node.path, kids, ChildKeys(F, node.path)) && below == |Below(F, node.path)|
    ensures why == None && sealed.path == node.path && Done(h, F, sealed)
  {
    hide KeysBy, KeyOf, Lt, Dirs, ChildKeys, ValidFiles, Kids, KidAt, Distinct, NodePreimage, Below, DirPreimage;
    why, sealed := None, node;
    var r := SortBy(KeyOf, kids);
    var k := 1;
    while k < |r|
      invariant why == None
    {
      assert Lt(Keys(r)[k - 1], Keys(r)[k]);
      if !Lt(KeyOf(r[k - 1]), KeyOf(r[k])) { why := Some(OrderViolated); return; }
      k := k + 1;
    }
    CanonicalKids(h, F, node.path, kids, r);
    sealed := DNode(node.path, Sha3(h, NodePreimage(node.path, r)), below, |r|);
  }

  /** collect, sort, dedupe: one blank node per directory, in path order. */
  method BlankNodes(h: Hash, ghost F: Files, ents: seq<Entry>) returns (why: Option<Fatal>, nodes: seq<DNode>)
    requires EntriesOf(h, F, ents)
    ensures why == None && NodesFor(F, nodes)
  {
    hide EntriesOf, Dirs, Listing, Sealable, Paths, Ascending, Sorted, Under, ValidFiles;
    EntryPaths(h, F, ents);
    why, nodes := None, [];
    for i := 0 to |ents|
      invariant why == None
    {
      EntrySealable(h, F, ents, i);
      var v := PathVerdict(ents[i].path);
      if v != Accept { why := Some(BadPath); return; }
    }
    forall p | p in Paths(ents) ensures Sealable(p) { FileSealable(F, p); }
    var all := CollectDirectories(Paths(ents));
    var sorted := SortStrings(all);
    var dirs := Dedupe(sorted);
    DirsListed(F, Paths(ents), all, sorted, dirs);
    for i := 0 to |dirs|
      invariant why == None && |nodes| == i
      invariant forall j :: 0 <= j < i ==> nodes[j].path == dirs[j]
    {
      assert dirs[i] in Dirs(F);
      DirSealable(F, dirs[i]);
      if |dirs[i]| >= PATH_MAX { why := Some(BadPath); return; }
      nodes := nodes + [DNode(dirs[i], ZERO_DIGEST, 0, 0)];
    }
  }

  lemma EntrySealable(h: Hash, F: Files, ents: seq<Entry>, i: nat)
    requires EntriesOf(h, F, ents) && i < |ents|
    ensures Sealable(ents[i].path)
  {
    hide Sealable, Listing, Paths;
    assert ents[i] in ents;
  }

  lemma DirsListed(F: Files, paths: seq<bytes>, all: seq<bytes>, sorted: seq<bytes>, dirs: seq<bytes>)
    requires forall p :: p in paths <==> p in F
    requires forall d :: d in all <==> exists p :: p in paths && Under(d, p)
    requires multiset(sorted) == multiset(all)
    requires Ascending(dirs) && forall d :: d in dirs <==> d in sorted
    ensures dirs == Listing(Dirs(F))
  {
    hide Under, Dirs, Listing, Ascending;
    forall d ensures d in dirs <==> d in Dirs(F) {
      DirsMember(F, d);
      assert d in sorted <==> d in multiset(sorted);
      assert d in all <==> d in multiset(all);
    }
    AscendingUnique(dirs, Listing(Dirs(F)));
  }

  /** The walk from the last directory to the first: every child is finished
      before its parent, every file is placed once, and the root counts them all. */
  method ComputeSections(h: Hash, ghost F: Files, ents: seq<Entry>) returns (r: Sections)
    requires EntriesOf(h, F, ents)
    ensures r.Built?
    ensures F == map[] ==> r == Built([], ZERO_DIGEST)
    ensures F != map[] ==> NodesFor(F, r.nodes) && r.tree == Tree(h, F)
    ensures forall k :: 0 <= k < |r.nodes| ==> Done(h, F, r.nodes[k])
  {
    hide *;
    EntryPaths(h, F, ents);
    if |ents| == 0 {
      EmptyFiles(F);
      return Built([], ZERO_DIGEST);
    }
    var why, nodes := BlankNodes(h, F, ents);
    if why.Some? { return Internal(why); }
    var kidcap := |ents| + |nodes|;
    var placed := 0;
    PlacedNone(F, nodes);
    var x := |nodes|;
    while x > 0
      invariant 0 <= x <= |nodes| == |Listing(Dirs(F))| && kidcap == |ents| + |nodes|
      invariant NodesFor(F, nodes)
      invariant placed == |PlacedIn(F, Listing(Dirs(F)), x)|
      invariant forall j :: x <= j < |nodes| ==> Done(h, F, nodes[j])
    {
      x := x - 1;
      NodeIsDir(F, nodes, x);
      var kids, below;
      why, kids := CollectFiles(h, F, ents, nodes[x].path, kidcap);
      if why.Some? { return Internal(why); }
      placed := placed + |kids|;
      PlacedStep(F, Listing(Dirs(F)), x);
      why, kids, below := CollectSubdirs(h, F, nodes, x, kidcap, kids);
      if why.Some? { return Internal(why); }
      var sealed;
      why, sealed := SealNode(h, F, nodes[x], kids, below);
      if why.Some? { return Internal(why); }
      NodesUpdate(F, nodes, x, sealed);
      nodes := nodes[x := sealed];
    }
    PlacedEvery(F, nodes);
    if placed != |ents| { return Internal(Some(NotPlaced)); }
    RootNode(h, F, nodes);
    if nodes[0].path != [] { return Internal(Some(NotRoot)); }
    if nodes[0].files != |ents| { return Internal(Some(RootCount)); }
    return Built(nodes, nodes[0].digest);
  }

  lemma EmptyFiles(F: Files)
    requires |F| == 0
    ensures F == map[]
  {
  }

  lemma PlacedNone(F: Files, nodes: seq<DNode>)
    requires NodesFor(F, nodes)
    ensures |nodes| == |Listing(Dirs(F))| && PlacedIn(F, Listing(Dirs(F)), |nodes|) == {}
  {
    hide Listing, Dirs, Parent;
  }

  lemma NodeIsDir(F: Files, nodes: seq<DNode>, x: nat)
    requires NodesFor(F, nodes) && x < |nodes|
    ensures |Listing(Dirs(F))| == |nodes| && Ascending(Listing(Dirs(F)))
    ensures Listing(Dirs(F))[x] == nodes[x].path && nodes[x].path in Dirs(F)
  {
    hide Listing, Dirs, Ascending;
  }

  lemma NodesUpdate(F: Files, nodes: seq<DNode>, x: nat, sealed: DNode)
    requires NodesFor(F, nodes) && x < |nodes| && sealed.path == nodes[x].path
    ensures NodesFor(F, nodes[x := sealed])
  {
    hide Listing, Dirs;
  }

  lemma PlacedEvery(F: Files, nodes: seq<DNode>)
    requires ValidFiles(F) && NodesFor(F, nodes)
    ensures |PlacedIn(F, Listing(Dirs(F)), 0)| == |F|
  {
    hide Listing, Dirs, PlacedIn, ValidFiles, Ascending;
    PlacedAll(F, Listing(Dirs(F)));
  }

  /** Node 0 is the root directory and everything is below it. */
  lemma RootNode(h: Hash, F: Files, nodes: seq<DNode>)
    requires ValidFiles(F) && F != map[] && NodesFor(F, nodes)
    requires forall k :: 0 <= k < |nodes| ==> Done(h, F, nodes[k])
    ensures |nodes| > 0 && nodes[0].path == [] && nodes[0].files == |F|
    ensures nodes[0].digest == Tree(h, F)
  {
    hide Listing, Dirs, ValidFiles, NodeDigest, ChildKeys;
    RootIsDir(F);
    var l := Listing(Dirs(F));
    assert [] in l;
    HeadIsLeast(l, []);
    assert Done(h, F, nodes[0]);
    assert Below(F, []) == F.Keys;
  }
}
