/** core_seal end to end: the NUL-separated input, `seal`, `check`, and the
    theorem that `check` of a sealed manifest says 0 exactly for the sealed set. */
module Seal {
  import opened Bytes
  import opened Wrappers
  import opened StrCmp
  import opened SealPath
  import opened SealMerkle
  import opened SealTree
  import opened SealLines
  import opened SealManifest

  const MAX_FILELIST: nat := (MAX_FILES + 1) * PATH_MAX

  datatype InputError = TooLong | Unterminated | Rejected | TooMany | Unreadable | Duplicate

  /* ---- the input stream -------------------------------------------------- */

  function FirstNul(data: bytes): (j: nat)
    ensures j <= |data|
    ensures forall i :: 0 <= i < j ==> data[i] != 0
    ensures j < |data| ==> data[j] == 0
  {
    if data == [] || data[0] == 0 then 0 else 1 + FirstNul(data[1..])
  }

  /** The non-empty NUL-terminated tokens; a newline separates nothing. */
  function Tokens(data: bytes): seq<bytes>
    decreases |data|
  {
    if data == [] then []
    else
      var j := FirstNul(data);
      var rest := Tokens(data[if j < |data| then j + 1 else j..]);
      if j > 0 then [data[..j]] + rest else rest
  }

  function Without(ts: seq<bytes>, m: bytes): (r: seq<bytes>)
    ensures forall t :: t in r <==> t in ts && t != m
  {
    if ts == [] then []
    else if ts[0] == m then Without(ts[1..], m)
    else [ts[0]] + Without(ts[1..], m)
  }

  /** The paths the tool seals: the tokens except the manifest itself. */
  function Wanted(manifest: bytes, data: bytes): seq<bytes> {
    Without(Tokens(data), manifest)
  }

  ghost predicate InputOk(disk: Files, manifest: bytes, data: bytes) {
    && |data| <= MAX_FILELIST
    && (data != [] ==> data[|data| - 1] == 0)
    && (forall t :: t in Tokens(data) ==> Sealable(t))
    && |Wanted(manifest, data)| <= MAX_FILES
    && (forall p :: p in Wanted(manifest, data) ==> p in disk)
    && Distinct(Wanted(manifest, data))
  }

  /** The path-to-bytes map a run works on. */
  ghost function Sealed(disk: Files, manifest: bytes, data: bytes): Files {
    map p | p in Wanted(manifest, data) && p in disk :: disk[p]
  }

  lemma SealedIsValid(disk: Files, manifest: bytes, data: bytes)
    requires InputOk(disk, manifest, data)
    ensures ValidFiles(Sealed(disk, manifest, data))
    ensures forall p :: p in Sealed(disk, manifest, data) <==> p in Wanted(manifest, data)
    ensures forall p :: p in Wanted(manifest, data) ==> Sealed(disk, manifest, data)[p] == disk[p]
  {
    hide Tokens, Sealable, Without, Distinct;
  }

  /* ---- read_and_hash ------------------------------------------------------- */

  /** hash_file on a readable file: content digest and Merkle leaf. */
  function HashFile(h: Hash, path: bytes, content: bytes): Entry {
    Entry(path, Sha3(h, content), Sha3(h, LeafPreimage(path, content)))
  }

  /** Entries read so far: one per wanted token of the consumed input. */
  ghost predicate ReadInv(h: Hash, disk: Files, manifest: bytes, done: seq<bytes>, ents: seq<Entry>) {
    && (forall t :: t in done ==> Sealable(t))
    && Paths(ents) == Without(done, manifest)
    && (forall e :: e in ents ==> e.path in disk && e == HashFile(h, e.path, disk[e.path]))
  }

  lemma {:induction false} WithoutAppend(a: seq<bytes>, t: bytes, m: bytes)
    ensures Without(a + [t], m) == Without(a, m) + (if t == m then [] else [t])
  {
    if a == [] {
      assert [t][1..] == [];
    } else {
      assert (a + [t])[0] == a[0] && (a + [t])[1..] == a[1..] + [t];
      WithoutAppend(a[1..], t, m);
    }
  }

  lemma ReadStep(h: Hash, disk: Files, manifest: bytes, done: seq<bytes>, ents: seq<Entry>, t: bytes)
    requires ReadInv(h, disk, manifest, done, ents) && Sealable(t) && (t != manifest ==> t in disk)
    ensures ReadInv(h, disk, manifest, done + [t],
              if t == manifest then ents else ents + [HashFile(h, t, disk[t])])
  {
    hide Sealable, Without, HashFile, KeysBy;
    WithoutAppend(done, t, manifest);
    if t != manifest {
      var e := HashFile(h, t, disk[t]);
      assert e.path == t by { HashedPath(h, t, disk[t]); }
      KeysByConcat(PathOf, ents, [e]);
      assert KeysBy(PathOf, [e]) == [t];
    }
  }

  lemma HashedPath(h: Hash, path: bytes, content: bytes)
    ensures HashFile(h, path, content).path == path
  {
  }

  lemma FirstNulIs(d: bytes, n: nat)
    requires n < |d| && d[n] == 0 && forall k :: 0 <= k < n ==> d[k] != 0
    ensures FirstNul(d) == n
  {
    hide FirstNul;
  }

  /** Consuming one token of the stream. */
  lemma TokenStep(data: bytes, i: nat, j: nat)
    requires i < |data| && i <= j < |data| && data[j] == 0
    requires forall k :: i <= k < j ==> data[k] != 0
    ensures Tokens(data[i..]) == (if i < j then [data[i..j]] else []) + Tokens(data[j + 1..])
  {
    hide FirstNul;
    var d := data[i..];
    FirstNulIs(d, j - i);
    assert d[..j - i] == data[i..j] && d[j - i + 1..] == data[j + 1..];
  }

  /** The token loop: every wanted path hashed, in input order. */
  method ReadEntries(h: Hash, disk: Files, manifest: bytes, data: bytes) returns (r: Result<seq<Entry>, InputError>)
    ensures r.Ok? ==> Paths(r.value) == Wanted(manifest, data)
    ensures r.Ok? ==> exists done :: ReadInv(h, disk, manifest, done, r.value)
    ensures r.Ok? ==> (InputOk(disk, manifest, data) <==> Distinct(Paths(r.value)))
    ensures r.Err? ==> !InputOk(disk, manifest, data)
  {
    hide Tokens, Sealable, Without, HashFile, ReadInv, Distinct, Paths;
    if |data| > MAX_FILELIST { return Err(TooLong); }
    if |data| > 0 && data[|data| - 1] != 0 { return Err(Unterminated); }
    var ents: seq<Entry> := [];
    ghost var done: seq<bytes> := [];
    var i := 0;
    ReadStart(h, disk, manifest, data);
    while i < |data|
      invariant 0 <= i <= |data|
      invariant Tokens(data) == done + Tokens(data[i..])
      invariant ReadInv(h, disk, manifest, done, ents) && |ents| <= MAX_FILES
    {
      var j := i;
      while j < |data| && data[j] != 0
        invariant i <= j <= |data|
        invariant forall k :: i <= k < j ==> data[k] != 0
      {
        j := j + 1;
      }
      TokenStep(data, i, j);
      if i < j {
        var t := data[i..j];
        var v := PathVerdict(t);
        if v != Accept { assert t in Tokens(data); return Err(Rejected); }
        if t != manifest {
          if |ents| == MAX_FILES {
            TooManyWanted(h, disk, manifest, data, done, ents, t, data[j + 1..]);
            return Err(TooMany);
          }
          if t !in disk { assert t in Tokens(data); return Err(Unreadable); }
        }
        ReadStep(h, disk, manifest, done, ents, t);
        if t != manifest { ents := ents + [HashFile(h, t, disk[t])]; }
        done := done + [t];
      }
      i := j + 1;
    }
    ReadEnd(h, disk, manifest, data, done, ents);
    return Ok(ents);
  }

  /** A stream is refused exactly when it is over-long, unterminated, or names
      something that cannot be sealed once. */
  method ReadAndHash(h: Hash, disk: Files, manifest: bytes, data: bytes) returns (r: Result<seq<Entry>, InputError>)
    ensures r.Ok? <==> InputOk(disk, manifest, data)
    ensures r.Ok? ==> EntriesOf(h, Sealed(disk, manifest, data), r.value)
  {
    hide InputOk, ReadInv, EntriesOf, Sealed, KeysBy, Ascending, Sorted, Distinct, Wanted;
    r := ReadEntries(h, disk, manifest, data);
    if r.Err? { return; }
    var ents := r.value;
    var sorted := SortBy(PathOf, ents);
    var dup := AdjacentRepeat(sorted);
    if dup { return Err(Duplicate); }
    SortedEntries(h, disk, manifest, data, ents, sorted);
    return Ok(sorted);
  }

  /** The adjacent-repeat scan after the sort. */
  method AdjacentRepeat(s: seq<Entry>) returns (dup: bool)
    requires Sorted(Paths(s))
    ensures dup <==> !Ascending(Paths(s))
  {
    hide Lt, KeysBy, Paths;
    var k := 1;
    while k < |s|
      invariant 1 <= k
      invariant forall i :: 1 <= i < k && i < |s| ==> Paths(s)[i - 1] != Paths(s)[i]
    {
      if s[k - 1].path == s[k].path {
        if Ascending(Paths(s)) { AscendingDistinct(Paths(s), k - 1, k); }
        return true;
      }
      k := k + 1;
    }
    SortedAscending(Paths(s));
    return false;
  }

  lemma ReadStart(h: Hash, disk: Files, manifest: bytes, data: bytes)
    ensures ReadInv(h, disk, manifest, [], [])
    ensures Tokens(data) == [] + Tokens(data[0..])
  {
    assert data[0..] == data;
  }

  lemma TooManyWanted(h: Hash, disk: Files, manifest: bytes, data: bytes, done: seq<bytes>, ents: seq<Entry>, t: bytes,
                      rest: bytes)
    requires ReadInv(h, disk, manifest, done, ents) && |ents| == MAX_FILES && t != manifest
    requires Tokens(data) == done + ([t] + Tokens(rest))
    ensures |Wanted(manifest, data)| > MAX_FILES
  {
    hide Tokens, Sealable, HashFile, KeysBy;
    assert Tokens(data) == (done + [t]) + Tokens(rest);
    WithoutAppend(done, t, manifest);
    WithoutConcat(done + [t], Tokens(rest), manifest);
  }

  lemma {:induction false} WithoutConcat(a: seq<bytes>, b: seq<bytes>, m: bytes)
    ensures Without(a + b, m) == Without(a, m) + Without(b, m)
  {
    if a == [] {
      assert a + b == b;
    } else {
      assert (a + b)[0] == a[0] && (a + b)[1..] == a[1..] + b;
      WithoutConcat(a[1..], b, m);
    }
  }

  lemma ReadEnd(h: Hash, disk: Files, manifest: bytes, data: bytes, done: seq<bytes>, ents: seq<Entry>)
    requires |data| <= MAX_FILELIST && (data != [] ==> data[|data| - 1] == 0) && |ents| <= MAX_FILES
    requires Tokens(data) == done + Tokens(data[|data|..]) && ReadInv(h, disk, manifest, done, ents)
    ensures Paths(ents) == Wanted(manifest, data)
    ensures InputOk(disk, manifest, data) <==> Distinct(Paths(ents))
  {
    hide Sealable, HashFile, KeysBy, Without, Distinct;
    assert data[|data|..] == [] && Tokens([]) == [];
    hide Tokens;
    assert Tokens(data) == done;
    forall p | p in Paths(ents) ensures p in disk {
      var i :| 0 <= i < |ents| && Paths(ents)[i] == p;
      assert ents[i] in ents;
    }
  }

  lemma SortedEntries(h: Hash, disk: Files, manifest: bytes, data: bytes, ents: seq<Entry>, sorted: seq<Entry>)
    requires InputOk(disk, manifest, data) && Paths(ents) == Wanted(manifest, data)
    requires exists done :: ReadInv(h, disk, manifest, done, ents)
    requires multiset(sorted) == multiset(ents) && Ascending(Paths(sorted))
    ensures EntriesOf(h, Sealed(disk, manifest, data), sorted)
  {
    hide InputOk, Wanted, Ascending, Sealed, KeysBy, ValidFiles, Listing, Sealable, LeafPreimage;
    var F := Sealed(disk, manifest, data);
    SealedIsValid(disk, manifest, data);
    forall p ensures p in Paths(sorted) <==> p in F { SameKeys(PathOf, sorted, ents, p); }
    AscendingUnique(Paths(sorted), Listing(F.Keys));
    forall e | e in sorted
      ensures e.path in F && e.hash == Sha3(h, F[e.path]) && e.leaf == Sha3(h, LeafPreimage(e.path, F[e.path]))
    {
      assert e in multiset(ents);
      EntryInPaths(sorted, e);
    }
  }

  lemma EntryInPaths(ents: seq<Entry>, e: Entry)
    requires e in ents
    ensures e.path in Paths(ents)
  {
    hide KeysBy;
    var i :| 0 <= i < |ents| && ents[i] == e;
    assert Paths(ents)[i] == e.path;
  }

  /* ---- ROOT ------------------------------------------------------------------- */

  function PairOf(e: Entry): (bytes, bytes) { (e.path, e.hash) }

  function EntryPairs(ents: seq<Entry>): (r: seq<(bytes, bytes)>)
    ensures |r| == |ents|
    ensures forall i :: 0 <= i < |ents| ==> r[i] == PairOf(ents[i])
  {
    if ents == [] then [] else EntryPairs(ents[..|ents| - 1]) + [PairOf(ents[|ents| - 1])]
  }

  lemma {:induction false} RootPreimageAppend(es: seq<(bytes, bytes)>, x: (bytes, bytes))
    ensures RootPreimage(es + [x]) == RootPreimage(es) + (x.0 + [0] + x.1)
  {
    if es == [] {
      assert [x][1..] == [];
      assert x.0 + [0] + (x.1 + []) == x.0 + [0] + x.1;
    } else {
      assert (es + [x])[0] == es[0] && (es + [x])[1..] == es[1..] + [x];
      RootPreimageAppend(es[1..], x);
    }
  }

  /** compute_root: the sponge is fed path, NUL, digest, entry by entry. */
  method ComputeRoot(h: Hash, ghost F: Files, ents: seq<Entry>) returns (root: bytes)
    requires EntriesOf(h, F, ents)
    ensures root == Root(h, F)
  {
    hide RootPreimage, EntriesOf, Pairs, Listing;
    var sponge: bytes := [];
    assert RootPreimage(EntryPairs(ents[..0])) == [] by { EmptyRootPreimage(); }
    for i := 0 to |ents|
      invariant sponge == RootPreimage(EntryPairs(ents[..i]))
    {
      assert ents[..i + 1][..i] == ents[..i];
      RootPreimageAppend(EntryPairs(ents[..i]), PairOf(ents[i]));
      sponge := sponge + (ents[i].path + [0] + ents[i].hash);
    }
    assert ents[..|ents|] == ents;
    EntryPairsAre(h, F, ents);
    return Sha3(h, sponge);
  }

  lemma EmptyRootPreimage()
    ensures RootPreimage([]) == []
  {
  }

  lemma EntryPairsAre(h: Hash, F: Files, ents: seq<Entry>)
    requires EntriesOf(h, F, ents)
    ensures EntryPairs(ents) == Pairs(h, F, Listing(F.Keys))
  {
    hide Listing, KeysBy, EntryPairs, Pairs, LeafPreimage;
    var x, y := EntryPairs(ents), Pairs(h, F, Listing(F.Keys));
    assert |x| == |Paths(ents)| == |y|;
    forall i | 0 <= i < |x| ensures x[i] == y[i] {
      assert ents[i] in ents;
      assert Paths(ents)[i] == ents[i].path;
    }
  }

  /* ---- the sealed view ---------------------------------------------------------- */

  ghost function FileRec(h: Hash, F: Files, p: bytes): FileLine
    requires p in F
  {
    FileLine(p, Hex(Sha3(h, F[p])))
  }

  ghost function SecRec(h: Hash, F: Files, d: bytes): Section
    requires ValidFiles(F) && d in Dirs(F)
  {
    Section(d, |Below(F, d)|, Hex(NodeDigest(h, F, d)))
  }

  ghost predicate FilesAre(h: Hash, F: Files, fs: seq<FileLine>) {
    && |fs| == |F|
    && forall i :: 0 <= i < |fs| ==>
         Listing(F.Keys)[i] in F && fs[i] == FileRec(h, F, Listing(F.Keys)[i])
  }

  /** One section per directory except the root, in path order. */
  ghost predicate SectionsAre(h: Hash, F: Files, ss: seq<Section>)
    requires ValidFiles(F)
  {
    && |ss| + 1 == |Dirs(F)|
    && forall i :: 0 <= i < |ss| ==>
         Listing(Dirs(F))[i + 1] in Dirs(F) && ss[i] == SecRec(h, F, Listing(Dirs(F))[i + 1])
  }

  /** The view `seal` prints for F. */
  ghost predicate IsViewOf(h: Hash, F: Files, v: View) {
    && ValidFiles(F) && F != map[]
    && v.root == Some(Hex(Root(h, F))) && v.tree == Some(Hex(Tree(h, F)))
    && FilesAre(h, F, v.files) && SectionsAre(h, F, v.secs)
  }

  ghost predicate WithinLimits(F: Files) {
    |F| <= MAX_FILES && 0 < |Dirs(F)| <= MAX_SECTIONS + 1
  }

  lemma SealedViewPrintable(h: Hash, F: Files, v: View)
    requires IsViewOf(h, F, v) && WithinLimits(F)
    ensures Writable(v)
  {
    hide Root, Tree, Dirs, Listing, NodeDigest, Hex, Sealable, ValidFiles;
    assert IsHex64(v.root.value) && IsHex64(v.tree.value) by { TreeLength(h, F); }
    forall i | 0 <= i < |v.files| ensures GoodFileLine(v.files[i]) { FileSealable(F, Listing(F.Keys)[i]); }
    forall i | 0 <= i < |v.secs| ensures GoodSection(v.secs[i]) { SectionRecGood(h, F, i, v.secs[i]); }
    forall i, j | 0 <= i < j < |v.secs| ensures v.secs[i].name != v.secs[j].name {
      AscendingDistinct(Listing(Dirs(F)), i + 1, j + 1);
    }
  }

  lemma TreeLength(h: Hash, F: Files)
    requires ValidFiles(F) && F != map[]
    ensures |Tree(h, F)| == HSZ && |Root(h, F)| == HSZ
  {
    hide Listing, Dirs, DirPreimage, RootPreimage, Pairs;
  }

  lemma SectionRecGood(h: Hash, F: Files, i: nat, s: Section)
    requires ValidFiles(F) && |F| <= MAX_FILES && i + 1 < |Dirs(F)|
    requires s == SecRec(h, F, Listing(Dirs(F))[i + 1])
    ensures GoodSection(s)
  {
    hide Listing, Dirs, DirPreimage, Hex, Sealable, Ascending;
    var l := Listing(Dirs(F));
    var d := l[i + 1];
    assert d != [] by {
      AscendingNotFirst(l, i + 1);
    }
    DirSealable(F, d);
    assert Below(F, d) <= F.Keys;
    SubsetSize(Below(F, d), F.Keys);
  }

  lemma AscendingNotFirst(l: seq<bytes>, i: nat)
    requires Ascending(l) && 0 < i < |l|
    ensures l[i] != []
  {
    assert Lt(l[0], l[i]);
  }

  lemma {:induction false} SubsetSize(a: set<bytes>, b: set<bytes>)
    requires a <= b
    ensures |a| <= |b|
  {
    assert b == a + (b - a);
  }
}
