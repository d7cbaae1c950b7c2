/** What the seal commits to: the flat ROOT fold and the recursive n-ary
    directory Merkle tree, defined on a path-to-bytes map, and the proofs that
    each of them determines that map. */
module SealMerkle {
  import opened Bytes
  import opened StrCmp
  import opened SealPath

  type Files = map<bytes, bytes>

  ghost predicate ValidFiles(F: Files) {
    forall p :: p in F ==> Sealable(p)
  }

  /* ---- the directories and their children -------------------------------- */

  /** Every proper ancestor of every file. */
  ghost function Dirs(F: Files): set<bytes> {
    set p, i | p in F && 0 <= i <= |p| && Under(p[..i], p) :: p[..i]
  }

  lemma DirsMember(F: Files, d: bytes)
    ensures d in Dirs(F) <==> exists p :: p in F && Under(d, p)
  {
    if p :| p in F && Under(d, p) {
      if d != [] { UnderIndex(d, p); }
      assert d == p[..|d|];
    }
  }

  lemma DirSealable(F: Files, d: bytes)
    requires ValidFiles(F) && d in Dirs(F)
    ensures |d| < PATH_MAX && NulFree(d)
    ensures d != [] ==> Sealable(d) && Parent(d) in Dirs(F) && |Parent(d)| < |d|
  {
    DirsMember(F, d);
    var p :| p in F && Under(d, p);
    if d != [] {
      UnderSealable(d, p);
      UnderParent(d, p);
      SealableSplit(d);
      DirsMember(F, Parent(d));
    }
  }

  predicate IsDirKey(k: bytes) {
    k != [] && k[|k| - 1] == SLASH
  }

  /** The ordering key of a child: a file's name, a directory's name plus '/'. */
  function ChildKey(name: bytes, isDir: bool): bytes {
    if isDir then name + [SLASH] else name
  }

  function KeyName(k: bytes): bytes {
    if IsDirKey(k) then k[..|k| - 1] else k
  }

  ghost function FileKeys(F: Files, d: bytes): set<bytes> {
    set p | p in F && Parent(p) == d :: ChildKey(Base(p), false)
  }

  ghost function DirKeys(F: Files, d: bytes): set<bytes> {
    set c | c in Dirs(F) && c != [] && Parent(c) == d :: ChildKey(Base(c), true)
  }

  ghost function ChildKeys(F: Files, d: bytes): set<bytes> {
    FileKeys(F, d) + DirKeys(F, d)
  }

  lemma FileKeyMember(F: Files, d: bytes, k: bytes)
    requires ValidFiles(F)
    ensures k in FileKeys(F, d) <==> SLASH !in k && Join(d, k) in F
    ensures k in FileKeys(F, d) ==> !IsDirKey(k) && GoodName(k) && NulFree(k)
  {
    if k in FileKeys(F, d) {
      var p :| p in F && Parent(p) == d && ChildKey(Base(p), false) == k;
      SealableSplit(p);
    }
    if SLASH !in k && Join(d, k) in F {
      ParentOfJoin(d, k);
    }
  }

  lemma DirKeyMember(F: Files, d: bytes, k: bytes)
    requires ValidFiles(F)
    ensures k in DirKeys(F, d) <==>
            IsDirKey(k) && SLASH !in KeyName(k) && KeyName(k) != [] && Join(d, KeyName(k)) in Dirs(F)
    ensures k in DirKeys(F, d) ==> GoodName(KeyName(k)) && NulFree(KeyName(k))
  {
    hide Dirs, DirKeys, NulFree, GoodName, ValidFiles, KeyName, Join, IsDirKey;
    var n := KeyName(k);
    if k in DirKeys(F, d) { DirKeyElim(F, d, k); }
    if IsDirKey(k) && SLASH !in n && n != [] && Join(d, n) in Dirs(F) {
      ParentOfJoin(d, n);
      KeyOfName(k);
      DirKeyIntro(F, d, Join(d, n));
    }
  }

  lemma KeyOfName(k: bytes)
    requires IsDirKey(k)
    ensures ChildKey(KeyName(k), true) == k
  {
  }

  lemma DirKeyElim(F: Files, d: bytes, k: bytes)
    requires ValidFiles(F) && k in DirKeys(F, d)
    ensures IsDirKey(k) && SLASH !in KeyName(k) && GoodName(KeyName(k)) && NulFree(KeyName(k))
    ensures KeyName(k) != [] && Join(d, KeyName(k)) in Dirs(F)
  {
    hide Dirs, NulFree, ValidFiles, Sealable, Parent, Base;
    var c :| c in Dirs(F) && c != [] && Parent(c) == d && ChildKey(Base(c), true) == k;
    DirSealable(F, c);
    SealableSplit(c);
    assert KeyName(k) == Base(c);
  }

  lemma DirKeyIntro(F: Files, d: bytes, c: bytes)
    requires c in Dirs(F) && c != [] && Parent(c) == d
    ensures var k := ChildKey(Base(c), true);
            k in DirKeys(F, d) && IsDirKey(k) && KeyName(k) == Base(c)
  {
    hide Dirs, Parent, Base;
    assert ChildKey(Base(c), true) in DirKeys(F, d);
  }

  lemma ChildDir(F: Files, d: bytes, k: bytes)
    requires ValidFiles(F) && d in Dirs(F) && k in ChildKeys(F, d) && IsDirKey(k)
    ensures var c := Join(d, KeyName(k));
            c in Dirs(F) && c != [] && Parent(c) == d && |d| < |c| < PATH_MAX
  {
    FileKeyMember(F, d, k);
    DirKeyMember(F, d, k);
    var c := Join(d, KeyName(k));
    ParentOfJoin(d, KeyName(k));
    DirSealable(F, c);
  }

  lemma ChildFile(F: Files, d: bytes, k: bytes)
    requires ValidFiles(F) && k in ChildKeys(F, d) && !IsDirKey(k)
    ensures Join(d, k) in F && SLASH !in k
  {
    FileKeyMember(F, d, k);
    DirKeyMember(F, d, k);
  }

  /* ---- preimages ----------------------------------------------------------- */

  datatype Kid = Kid(name: bytes, isDir: bool, digest: bytes)

  const LEAF_TAG: byte := 0x10
  const NODE_TAG: byte := 0x11

  function LeafDomain(): bytes { Ascii("zcl.codeindex.merkle.leaf.v1") }
  function NodeDomain(): bytes { Ascii("zcl.codeindex.merkle.node.v1") }

  /** hash_file: tag, domain NUL, path NUL, u64le size, bytes. */
  function LeafPreimage(path: bytes, content: bytes): bytes {
    [LEAF_TAG] + (LeafDomain() + [0]) + (path + [0] + (Bytes.Le(|content|, 8) + content))
  }

  function EncodeKid(k: Kid): bytes {
    [if k.isDir then 1 else 0] + (k.name + [0] + k.digest)
  }

  function EncodeKids(ks: seq<Kid>): bytes {
    if ks == [] then [] else EncodeKid(ks[0]) + EncodeKids(ks[1..])
  }

  /** node_digest: tag, domain NUL, dirpath NUL, u32le child count, children. */
  function NodePreimage(dir: bytes, ks: seq<Kid>): bytes {
    [NODE_TAG] + (NodeDomain() + [0]) + (dir + [0] + (Bytes.Le(|ks|, 4) + EncodeKids(ks)))
  }

  lemma LeafPreimageInjective(p: bytes, x: bytes, q: bytes, y: bytes)
    requires NulFree(p) && NulFree(q)
    requires LeafPreimage(p, x) == LeafPreimage(q, y)
    ensures p == q && x == y
  {
    var head := [LEAF_TAG] + (LeafDomain() + [0]);
    SplitAt(head, p + [0] + (Bytes.Le(|x|, 8) + x), head, q + [0] + (Bytes.Le(|y|, 8) + y));
    SplitNul(p, Bytes.Le(|x|, 8) + x, q, Bytes.Le(|y|, 8) + y);
    SplitAt(Bytes.Le(|x|, 8), x, Bytes.Le(|y|, 8), y);
  }

  /** The bytes hashed for a file are never those hashed for a directory. */
  lemma LeafIsNeverNode(p: bytes, x: bytes, d: bytes, ks: seq<Kid>)
    ensures LeafPreimage(p, x) != NodePreimage(d, ks)
  {
    assert LeafPreimage(p, x)[0] == LEAF_TAG && NodePreimage(d, ks)[0] == NODE_TAG;
  }

  ghost predicate GoodKids(ks: seq<Kid>) {
    forall i :: 0 <= i < |ks| ==> NulFree(ks[i].name) && |ks[i].digest| == HSZ
  }

  /** A child record at the front is read off in one way. */
  lemma KidSplit(a: Kid, x: bytes, b: Kid, y: bytes)
    requires NulFree(a.name) && NulFree(b.name) && |a.digest| == HSZ && |b.digest| == HSZ
    requires EncodeKid(a) + x == EncodeKid(b) + y
    ensures a == b && x == y
  {
    hide NulFree;
    var ka: bytes, kb: bytes := [if a.isDir then 1 else 0], [if b.isDir then 1 else 0];
    Assoc(ka, a.name + [0] + a.digest, x);
    Assoc(kb, b.name + [0] + b.digest, y);
    Assoc(a.name + [0], a.digest, x);
    Assoc(b.name + [0], b.digest, y);
    SplitAt(ka, a.name + [0] + (a.digest + x), kb, b.name + [0] + (b.digest + y));
    SplitNul(a.name, a.digest + x, b.name, b.digest + y);
    SplitAt(a.digest, x, b.digest, y);
    assert ka[0] == kb[0];
  }

  lemma {:induction false} EncodeKidsInjective(s: seq<Kid>, t: seq<Kid>)
    requires GoodKids(s) && GoodKids(t)
    requires EncodeKids(s) == EncodeKids(t)
    ensures s == t
  {
    hide EncodeKid, NulFree;
    KidsBytes(s);
    KidsBytes(t);
    if s != [] && t != [] {
      KidSplit(s[0], EncodeKids(s[1..]), t[0], EncodeKids(t[1..]));
      EncodeKidsInjective(s[1..], t[1..]);
      assert s == [s[0]] + s[1..] && t == [t[0]] + t[1..];
    }
  }

  lemma KidsBytes(s: seq<Kid>)
    ensures s != [] ==> EncodeKids(s) != []
  {
  }

  lemma NodePreimageInjective(d: bytes, s: seq<Kid>, e: bytes, t: seq<Kid>)
    requires NulFree(d) && NulFree(e) && GoodKids(s) && GoodKids(t)
    requires NodePreimage(d, s) == NodePreimage(e, t)
    ensures d == e && s == t
  {
    var head := [NODE_TAG] + (NodeDomain() + [0]);
    var x, y := Bytes.Le(|s|, 4) + EncodeKids(s), Bytes.Le(|t|, 4) + EncodeKids(t);
    SplitAt(head, d + [0] + x, head, e + [0] + y);
    SplitNul(d, x, e, y);
    SplitAt(Bytes.Le(|s|, 4), EncodeKids(s), Bytes.Le(|t|, 4), EncodeKids(t));
    EncodeKidsInjective(s, t);
  }

  /* ---- the recursive definition -------------------------------------------- */

  /** The digest of a directory: one preimage over all its direct children, in
      ascending key order. */
  ghost function NodeDigest(h: Hash, F: Files, d: bytes): bytes
    requires ValidFiles(F) && d in Dirs(F)
    decreases PATH_MAX - |d|, 2, 0
  {
    Sha3(h, DirPreimage(h, F, d))
  }

  ghost function DirPreimage(h: Hash, F: Files, d: bytes): bytes
    requires ValidFiles(F) && d in Dirs(F)
    decreases PATH_MAX - |d|, 1, |ChildKeys(F, d)| + 1
  {
    DirSealable(F, d);
    NodePreimage(d, Kids(h, F, d, Listing(ChildKeys(F, d))))
  }

  ghost function Kids(h: Hash, F: Files, d: bytes, keys: seq<bytes>): (ks: seq<Kid>)
    requires ValidFiles(F) && d in Dirs(F)
    requires forall k :: k in keys ==> k in ChildKeys(F, d)
    ensures |ks| == |keys|
    ensures forall i :: 0 <= i < |keys| ==> ks[i] == KidAt(h, F, d, keys[i])
    decreases PATH_MAX - |d|, 1, |keys|
  {
    seq(|keys|, i requires 0 <= i < |keys| => KidAt(h, F, d, keys[i]))
  }

  ghost function KidAt(h: Hash, F: Files, d: bytes, k: bytes): (kid: Kid)
    requires ValidFiles(F) && d in Dirs(F) && k in ChildKeys(F, d)
    decreases PATH_MAX - |d|, 0, 0
  {
    DirSealable(F, d);
    if IsDirKey(k) then
      ChildDir(F, d, k);
      Kid(KeyName(k), true, NodeDigest(h, F, Join(d, KeyName(k))))
    else
      ChildFile(F, d, k);
      Kid(k, false, Sha3(h, LeafPreimage(Join(d, k), F[Join(d, k)])))
  }

  lemma KidGood(h: Hash, F: Files, d: bytes, k: bytes)
    requires ValidFiles(F) && d in Dirs(F) && k in ChildKeys(F, d)
    ensures NulFree(KidAt(h, F, d, k).name) && |KidAt(h, F, d, k).digest| == HSZ
    ensures k == ChildKey(KidAt(h, F, d, k).name, KidAt(h, F, d, k).isDir)
  {
    FileKeyMember(F, d, k);
    DirKeyMember(F, d, k);
  }

  lemma KidsGood(h: Hash, F: Files, d: bytes, keys: seq<bytes>)
    requires ValidFiles(F) && d in Dirs(F)
    requires forall k :: k in keys ==> k in ChildKeys(F, d)
    ensures GoodKids(Kids(h, F, d, keys))
  {
    hide KidAt, ChildKeys, Dirs, ValidFiles, NulFree, Kids;
    var ks := Kids(h, F, d, keys);
    forall i | 0 <= i < |ks| ensures NulFree(ks[i].name) && |ks[i].digest| == HSZ {
      KidGood(h, F, d, keys[i]);
    }
  }

  /** A child record names its key. */
  lemma KidsDetermineKeys(h: Hash, F: Files, s: seq<bytes>, G: Files, t: seq<bytes>, d: bytes)
    requires ValidFiles(F) && d in Dirs(F) && ValidFiles(G) && d in Dirs(G)
    requires forall k :: k in s ==> k in ChildKeys(F, d)
    requires forall k :: k in t ==> k in ChildKeys(G, d)
    requires Kids(h, F, d, s) == Kids(h, G, d, t)
    ensures s == t
  {
    hide KidAt, ChildKeys, Dirs, ValidFiles, NulFree, Kids;
    var x, y := Kids(h, F, d, s), Kids(h, G, d, t);
    forall i | 0 <= i < |s| ensures s[i] == t[i] {
      assert x[i] == y[i];
      KidGood(h, F, d, s[i]);
      KidGood(h, G, d, t[i]);
    }
  }

  /* ---- what the digests determine ------------------------------------------ */

  /** Everything hashed while building the tree of F. */
  ghost function TreePreimages(h: Hash, F: Files): set<bytes>
    requires ValidFiles(F)
  {
    (set p | p in F :: LeafPreimage(p, F[p])) +
    (set d | d in Dirs(F) :: DirPreimage(h, F, d))
  }

  ghost predicate SameBelow(F: Files, G: Files, d: bytes) {
    forall p :: Under(d, p) ==> (p in F <==> p in G) && (p in F && p in G ==> F[p] == G[p])
  }

  /** Equal node digests force equal children. */
  lemma NodeDigestKids(h: Hash, F: Files, G: Files, d: bytes)
    requires ValidFiles(F) && ValidFiles(G) && d in Dirs(F) && d in Dirs(G)
    requires NoCollision(h, TreePreimages(h, F) + TreePreimages(h, G))
    requires NodeDigest(h, F, d) == NodeDigest(h, G, d)
    ensures Listing(ChildKeys(F, d)) == Listing(ChildKeys(G, d))
    ensures Kids(h, F, d, Listing(ChildKeys(F, d))) == Kids(h, G, d, Listing(ChildKeys(G, d)))
  {
    hide ChildKeys, Dirs, ValidFiles, NulFree, Kids, KidAt, Listing, Ascending, NoCollision, NodePreimage, GoodKids;
    var s, t := Listing(ChildKeys(F, d)), Listing(ChildKeys(G, d));
    var x, y := DirPreimage(h, F, d), DirPreimage(h, G, d);
    assert x == y by {
      assert x in TreePreimages(h, F) && y in TreePreimages(h, G);
      NoCollisionElim(h, TreePreimages(h, F) + TreePreimages(h, G), x, y);
    }
    DirSealable(F, d);
    KidsGood(h, F, d, s);
    KidsGood(h, G, d, t);
    NodePreimageInjective(d, Kids(h, F, d, s), d, Kids(h, G, d, t));
    KidsDetermineKeys(h, F, s, G, t, d);
  }

  lemma KidsAgree(h: Hash, F: Files, G: Files, d: bytes, k: bytes)
    requires ValidFiles(F) && ValidFiles(G) && d in Dirs(F) && d in Dirs(G)
    requires Listing(ChildKeys(F, d)) == Listing(ChildKeys(G, d))
    requires Kids(h, F, d, Listing(ChildKeys(F, d))) == Kids(h, G, d, Listing(ChildKeys(G, d)))
    requires k in ChildKeys(F, d)
    ensures k in ChildKeys(G, d) && KidAt(h, F, d, k) == KidAt(h, G, d, k)
  {
    hide ChildKeys, Dirs, ValidFiles, Kids, KidAt, Ascending, Listing;
    var s := Listing(ChildKeys(F, d));
    assert k in s;
    var i :| 0 <= i < |s| && s[i] == k;
    assert Kids(h, F, d, s)[i] == Kids(h, G, d, s)[i];
  }

  /** One directory digest determines every file below that directory. */
  lemma {:induction false} SectionBinds(h: Hash, F: Files, G: Files, d: bytes, p: bytes)
    requires ValidFiles(F) && ValidFiles(G) && d in Dirs(F) && d in Dirs(G)
    requires NoCollision(h, TreePreimages(h, F) + TreePreimages(h, G))
    requires NodeDigest(h, F, d) == NodeDigest(h, G, d)
    requires p in F && Under(d, p)
    ensures p in G && F[p] == G[p]
    decreases PATH_MAX - |d|
  {
    hide *;
    NodeDigestKids(h, F, G, d);
    if Parent(p) == d {
      FileBinds(h, F, G, d, p);
    } else {
      assert Sealable(p) by { FileSealable(F, p); }
      var c := Toward(d, p);
      var k := ChildKey(Base(c), true);
      ThroughChild(F, d, p);
      KidsAgree(h, F, G, d, k);
      ChildDir(G, d, k);
      DirKidDigest(h, F, G, d, k);
      SectionBinds(h, F, G, c, p);
    }
  }

  lemma FileSealable(F: Files, p: bytes)
    requires ValidFiles(F) && p in F
    ensures Sealable(p)
  {
    hide Sealable;
  }

  lemma DirKidDigest(h: Hash, F: Files, G: Files, d: bytes, k: bytes)
    requires ValidFiles(F) && ValidFiles(G) && d in Dirs(F) && d in Dirs(G)
    requires k in ChildKeys(F, d) && k in ChildKeys(G, d) && IsDirKey(k)
    requires KidAt(h, F, d, k) == KidAt(h, G, d, k)
    ensures var c := Join(d, KeyName(k));
            && c in Dirs(F) && c in Dirs(G) && NodeDigest(h, F, c) == NodeDigest(h, G, c)
  {
    hide Dirs, ChildKeys, ValidFiles, NodeDigest, Join, KeyName;
    ChildDir(F, d, k);
    ChildDir(G, d, k);
  }

  lemma FileBinds(h: Hash, F: Files, G: Files, d: bytes, p: bytes)
    requires ValidFiles(F) && ValidFiles(G) && d in Dirs(F) && d in Dirs(G)
    requires NoCollision(h, TreePreimages(h, F) + TreePreimages(h, G))
    requires Listing(ChildKeys(F, d)) == Listing(ChildKeys(G, d))
    requires Kids(h, F, d, Listing(ChildKeys(F, d))) == Kids(h, G, d, Listing(ChildKeys(G, d)))
    requires p in F && Parent(p) == d
    ensures p in G && F[p] == G[p]
  {
    hide Dirs, NoCollision, Kids, Listing, Sealable, NodeDigest, LeafPreimage;
    var k := Base(p);
    SealableSplit(p);
    FileKeyMember(F, d, k);
    KidsAgree(h, F, G, d, k);
    ChildFile(G, d, k);
    var x, y := LeafPreimage(p, F[p]), LeafPreimage(p, G[p]);
    assert Sha3(h, x) == Sha3(h, y);
    assert x in TreePreimages(h, F) && y in TreePreimages(h, G);
    NoCollisionElim(h, TreePreimages(h, F) + TreePreimages(h, G), x, y);
    SealableNulFree(p);
    LeafPreimageInjective(p, F[p], p, G[p]);
  }

  /** The child directory a path goes through is a child record. */
  lemma ThroughChild(F: Files, d: bytes, p: bytes)
    requires ValidFiles(F) && p in F && Under(d, p) && Parent(p) != d
    ensures var c := Toward(d, p);
            var k := ChildKey(Base(c), true);
            && c in Dirs(F) && IsDirKey(k) && k in ChildKeys(F, d)
            && KeyName(k) == Base(c) && Join(d, KeyName(k)) == c
  {
    hide Dirs, Under, Sealable, Toward, DirKeys, FileKeys;
    var c := Toward(d, p);
    DirsMember(F, c);
    SealableSplit(c);
    DirKeyIntro(F, d, c);
  }

  /** A directory digest looks at nothing outside the directory. */
  lemma {:induction false} SectionLocal(h: Hash, F: Files, G: Files, d: bytes)
    requires ValidFiles(F) && ValidFiles(G) && d in Dirs(F) && SameBelow(F, G, d)
    ensures d in Dirs(G) && NodeDigest(h, F, d) == NodeDigest(h, G, d)
    decreases PATH_MAX - |d|, 1
  {
    hide Kids, KidAt, ChildKeys, Dirs, SameBelow, Ascending, ValidFiles;
    DirsMember(F, d);
    DirsMember(G, d);
    assert d in Dirs(G) by { SameDir(F, G, d); }
    DirSealable(F, d);
    SameChildKeys(F, G, d);
    SameChildKeys(G, F, d) by { assert SameBelow(G, F, d) by { SameBelowSym(F, G, d); } }
    var keys := Listing(ChildKeys(F, d));
    assert ChildKeys(F, d) == ChildKeys(G, d);
    var x, y := Kids(h, F, d, keys), Kids(h, G, d, keys);
    forall i | 0 <= i < |keys| ensures x[i] == y[i] {
      KidLocal(h, F, G, d, keys[i]);
    }
    assert x == y;
  }

  lemma SameBelowSym(F: Files, G: Files, d: bytes)
    requires SameBelow(F, G, d)
    ensures SameBelow(G, F, d)
  {
  }

  lemma SameDir(F: Files, G: Files, d: bytes)
    requires d in Dirs(F) && SameBelow(F, G, d)
    ensures d in Dirs(G)
  {
    hide Dirs;
    DirsMember(F, d);
    DirsMember(G, d);
  }

  lemma KidLocal(h: Hash, F: Files, G: Files, d: bytes, k: bytes)
    requires ValidFiles(F) && ValidFiles(G) && d in Dirs(F) && d in Dirs(G) && SameBelow(F, G, d)
    requires k in ChildKeys(F, d) && k in ChildKeys(G, d)
    ensures KidAt(h, F, d, k) == KidAt(h, G, d, k)
    decreases PATH_MAX - |d|, 0
  {
    hide Dirs, NodeDigest, Sealable, ChildKeys;
    if IsDirKey(k) {
      ChildDir(F, d, k);
      var c := Join(d, KeyName(k));
      forall p | Under(c, p) && (p in F || p in G) ensures Under(d, p) { UnderParent(c, p); }
      SectionLocal(h, F, G, c);
    } else {
      ChildFile(F, d, k);
      ParentOfJoin(d, k);
      UnderStep(d, Join(d, k));
    }
  }

  lemma SameChildKeys(F: Files, G: Files, d: bytes)
    requires ValidFiles(F) && ValidFiles(G) && SameBelow(F, G, d)
    ensures ChildKeys(F, d) <= ChildKeys(G, d)
  {
    forall k | k in ChildKeys(F, d) ensures k in ChildKeys(G, d) {
      FileKeyMember(F, d, k);
      FileKeyMember(G, d, k);
      DirKeyMember(F, d, k);
      DirKeyMember(G, d, k);
      if k in FileKeys(F, d) {
        ParentOfJoin(d, k);
        UnderStep(d, Join(d, k));
      } else {
        var c := Join(d, KeyName(k));
        ParentOfJoin(d, KeyName(k));
        DirsMember(F, c);
        DirsMember(G, c);
        var p :| p in F && Under(c, p);
        UnderParent(c, p);
      }
    }
  }

  /** A section's digest moves exactly when a file below the section moves. */
  lemma SectionDigestIff(h: Hash, F: Files, G: Files, d: bytes)
    requires ValidFiles(F) && ValidFiles(G) && d in Dirs(F) && d in Dirs(G)
    requires NoCollision(h, TreePreimages(h, F) + TreePreimages(h, G))
    ensures NodeDigest(h, F, d) == NodeDigest(h, G, d) <==> SameBelow(F, G, d)
  {
    hide NodeDigest, Dirs, NoCollision, TreePreimages, ValidFiles, Under;
    if NodeDigest(h, F, d) == NodeDigest(h, G, d) {
      assert TreePreimages(h, F) + TreePreimages(h, G) == TreePreimages(h, G) + TreePreimages(h, F);
      forall p | Under(d, p) && p in F ensures p in G && F[p] == G[p] {
        SectionBinds(h, F, G, d, p);
      }
      forall p | Under(d, p) && p in G ensures p in F && F[p] == G[p] {
        SectionBinds(h, G, F, d, p);
      }
    }
    if SameBelow(F, G, d) { SectionLocal(h, F, G, d); }
  }

  lemma RootIsDir(F: Files)
    requires F != map[]
    ensures [] in Dirs(F)
  {
    var p :| p in F;
    assert Under([], p);
    DirsMember(F, []);
  }

  /** TREE, the digest of the root directory. */
  ghost function Tree(h: Hash, F: Files): bytes
    requires ValidFiles(F) && F != map[]
  {
    RootIsDir(F);
    NodeDigest(h, F, [])
  }

  /** TREE alone determines the whole path-to-bytes map. */
  lemma TreeBinds(h: Hash, F: Files, G: Files)
    requires ValidFiles(F) && ValidFiles(G) && F != map[] && G != map[]
    requires NoCollision(h, TreePreimages(h, F) + TreePreimages(h, G))
    ensures Tree(h, F) == Tree(h, G) <==> F == G
  {
    hide NodeDigest, Dirs, NoCollision, TreePreimages;
    RootIsDir(F);
    RootIsDir(G);
    SectionDigestIff(h, F, G, []);
    if SameBelow(F, G, []) {
      assert forall p :: Under([], p);
      assert F.Keys == G.Keys;
    }
  }

  /* ---- ROOT ------------------------------------------------------------------ */

  /** compute_root: path, NUL, 32 raw digest bytes, over a list of pairs. */
  function RootPreimage(es: seq<(bytes, bytes)>): bytes {
    if es == [] then [] else es[0].0 + [0] + (es[0].1 + RootPreimage(es[1..]))
  }

  ghost predicate GoodPairs(es: seq<(bytes, bytes)>) {
    forall i :: 0 <= i < |es| ==> NulFree(es[i].0) && |es[i].1| == HSZ
  }

  lemma {:induction false} RootPreimageInjective(s: seq<(bytes, bytes)>, t: seq<(bytes, bytes)>)
    requires GoodPairs(s) && GoodPairs(t)
    requires RootPreimage(s) == RootPreimage(t)
    ensures s == t
  {
    assert s != [] ==> |RootPreimage(s)| > 0;
    assert t != [] ==> |RootPreimage(t)| > 0;
    if s != [] && t != [] {
      SplitNul(s[0].0, s[0].1 + RootPreimage(s[1..]), t[0].0, t[0].1 + RootPreimage(t[1..]));
      SplitAt(s[0].1, RootPreimage(s[1..]), t[0].1, RootPreimage(t[1..]));
      RootPreimageInjective(s[1..], t[1..]);
      assert s == [s[0]] + s[1..] && t == [t[0]] + t[1..];
    }
  }

  ghost function Pairs(h: Hash, F: Files, paths: seq<bytes>): (es: seq<(bytes, bytes)>)
    requires forall p :: p in paths ==> p in F
    ensures |es| == |paths|
    ensures forall i :: 0 <= i < |paths| ==> es[i] == (paths[i], Sha3(h, F[paths[i]]))
  {
    seq(|paths|, i requires 0 <= i < |paths| => (paths[i], Sha3(h, F[paths[i]])))
  }

  ghost function Root(h: Hash, F: Files): bytes {
    Sha3(h, RootPreimage(Pairs(h, F, Listing(F.Keys))))
  }

  ghost function RootPreimages(h: Hash, F: Files): set<bytes> {
    F.Values + {RootPreimage(Pairs(h, F, Listing(F.Keys)))}
  }

  lemma PairsGood(h: Hash, F: Files)
    requires ValidFiles(F)
    ensures GoodPairs(Pairs(h, F, Listing(F.Keys)))
  {
    var es := Pairs(h, F, Listing(F.Keys));
    forall i | 0 <= i < |es| ensures NulFree(es[i].0) && |es[i].1| == HSZ {
      SealableNulFree(Listing(F.Keys)[i]);
    }
  }

  /** Equal pair lists and no collision among contents: equal maps. */
  lemma PairsDetermineFiles(h: Hash, F: Files, G: Files)
    requires NoCollision(h, F.Values + G.Values)
    requires Pairs(h, F, Listing(F.Keys)) == Pairs(h, G, Listing(G.Keys))
    ensures F == G
  {
    hide Ascending, Listing, NoCollision, Pairs;
    var s, t := Listing(F.Keys), Listing(G.Keys);
    PairsDeterminePaths(h, F, s, G, t);
    assert F.Keys == G.Keys by { assert forall p :: p in F.Keys <==> p in s; }
    forall p | p in F.Keys ensures F[p] == G[p] {
      assert p in s;
      var i :| 0 <= i < |s| && s[i] == p;
      assert Pairs(h, F, s)[i].1 == Pairs(h, G, t)[i].1;
      assert F[p] in F.Values && G[p] in G.Values;
      NoCollisionElim(h, F.Values + G.Values, F[p], G[p]);
    }
  }

  lemma PairsDeterminePaths(h: Hash, F: Files, s: seq<bytes>, G: Files, t: seq<bytes>)
    requires forall p :: p in s ==> p in F
    requires forall p :: p in t ==> p in G
    requires Pairs(h, F, s) == Pairs(h, G, t)
    ensures s == t
  {
    hide Pairs;
    var x, y := Pairs(h, F, s), Pairs(h, G, t);
    assert |x| == |s| == |y| == |t|;
    forall i | 0 <= i < |s| ensures s[i] == t[i] { assert x[i].0 == y[i].0; }
  }

  /** ROOT alone determines the whole path-to-bytes map. */
  lemma RootBinds(h: Hash, F: Files, G: Files)
    requires ValidFiles(F) && ValidFiles(G)
    requires NoCollision(h, RootPreimages(h, F) + RootPreimages(h, G))
    ensures Root(h, F) == Root(h, G) <==> F == G
  {
    hide Ascending, Listing, ValidFiles, RootPreimage, GoodPairs, Pairs, NoCollision;
    if Root(h, F) == Root(h, G) {
      var s, t := Pairs(h, F, Listing(F.Keys)), Pairs(h, G, Listing(G.Keys));
      PairsGood(h, F);
      PairsGood(h, G);
      NoCollisionElim(h, RootPreimages(h, F) + RootPreimages(h, G), RootPreimage(s), RootPreimage(t));
      RootPreimageInjective(s, t);
      NoCollisionSubset(h, F.Values + G.Values, RootPreimages(h, F) + RootPreimages(h, G));
      PairsDetermineFiles(h, F, G);
    }
  }
}
