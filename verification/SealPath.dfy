/** The sealable-path policy of core_seal and the directory arithmetic of
    repo-relative paths: parent, basename and "is below". */
module SealPath {
  import opened Bytes

  const SLASH: byte := 47
  const DOT: byte := 46
  const PATH_MAX: nat := 256
  const NAME_MAX: nat := 160

  datatype Verdict =
    | Accept
    | EmptyPath | PathTooLong | AbsolutePath | TrailingSlash | ControlByte
    | EmptyComponent | ComponentTooLong | DotComponent | DotDotComponent

  /* ---- the policy, stated without a scan -------------------------------- */

  /** p[i..j] is a maximal slash-free stretch of p. */
  predicate IsComponent(p: bytes, i: int, j: int) {
    && 0 <= i <= j <= |p|
    && (i == 0 || p[i - 1] == SLASH)
    && (j == |p| || p[j] == SLASH)
    && forall k :: i <= k < j ==> p[k] != SLASH
  }

  predicate GoodName(c: bytes) {
    0 < |c| < NAME_MAX && c != [DOT] && c != [DOT, DOT]
  }

  predicate Printable(p: bytes) {
    forall i :: 0 <= i < |p| ==> p[i] >= 32 && p[i] != 127
  }

  predicate Sealable(p: bytes) {
    && |p| < PATH_MAX
    && Printable(p)
    && forall i, j :: 0 <= i <= |p| && 0 <= j <= |p| && IsComponent(p, i, j) ==> GoodName(p[i..j])
  }

  /** Components that end inside [start..i] are the one that starts there. */
  lemma ComponentStart(p: bytes, start: int, i: int, a: int, b: int)
    requires IsComponent(p, start, i) && IsComponent(p, a, b) && b <= i
    ensures b < start || (a == start && b == i)
  {
  }

  /* ---- the policy, as the tool scans it --------------------------------- */

  /** path_component_reject_reason: one left-to-right walk over the components. */
  method ComponentVerdict(p: bytes) returns (v: Verdict)
    ensures v == Accept <==> forall i, j :: IsComponent(p, i, j) ==> GoodName(p[i..j])
  {
    var start := 0;
    var i := 0;
    while i <= |p|
      invariant 0 <= start <= i <= |p| + 1
      invariant 0 < start <= |p| ==> p[start - 1] == SLASH
      invariant forall k :: start <= k < i && k < |p| ==> p[k] != SLASH
      invariant i == |p| + 1 ==> start == i
      invariant forall a, b :: IsComponent(p, a, b) && b < start ==> GoodName(p[a..b])
    {
      if i != |p| && p[i] != SLASH {
        i := i + 1;
        continue;
      }
      assert IsComponent(p, start, i);
      var c := p[start..i];
      if |c| == 0 { return EmptyComponent; }
      if |c| >= NAME_MAX { return ComponentTooLong; }
      if |c| == 1 && p[start] == DOT { assert c == [DOT]; return DotComponent; }
      if |c| == 2 && p[start] == DOT && p[start + 1] == DOT {
        assert c == [DOT, DOT];
        return DotDotComponent;
      }
      forall a, b | IsComponent(p, a, b) && b <= i ensures b < start || (a == start && b == i) {
        ComponentStart(p, start, i, a, b);
      }
      start := i + 1;
      i := i + 1;
    }
    return Accept;
  }

  /** path_reject_reason accepts exactly the sealable paths. */
  method PathVerdict(p: bytes) returns (v: Verdict)
    ensures v == Accept <==> Sealable(p)
  {
    if p == [] {
      assert IsComponent(p, 0, 0);
      return EmptyPath;
    }
    if |p| >= PATH_MAX { return PathTooLong; }
    if p[0] == SLASH {
      assert IsComponent(p, 0, 0);
      return AbsolutePath;
    }
    if p[|p| - 1] == SLASH {
      assert IsComponent(p, |p|, |p|);
      return TrailingSlash;
    }
    for i := 0 to |p|
      invariant forall k :: 0 <= k < i ==> p[k] >= 32 && p[k] != 127
    {
      if p[i] < 32 || p[i] == 127 { return ControlByte; }
    }
    v := ComponentVerdict(p);
  }

  /* ---- parent_of and base_of -------------------------------------------- */

  /** strrchr(p, '/') as an index, -1 when there is no slash. */
  function LastSlash(p: bytes): (r: int)
    ensures -1 <= r < |p|
    ensures r >= 0 ==> p[r] == SLASH
    ensures forall k :: r < k < |p| ==> p[k] != SLASH
  {
    if p == [] then -1
    else if p[|p| - 1] == SLASH then |p| - 1
    else LastSlash(p[..|p| - 1])
  }

  function Parent(p: bytes): bytes {
    if LastSlash(p) < 0 then [] else p[..LastSlash(p)]
  }

  function Base(p: bytes): bytes {
    p[LastSlash(p) + 1..]
  }

  function Join(d: bytes, name: bytes): bytes {
    if d == [] then name else d + [SLASH] + name
  }

  /** d is a proper ancestor directory of p; [] is the repository root. */
  ghost predicate Under(d: bytes, p: bytes) {
    d == [] || d + [SLASH] <= p
  }

  lemma SealableNulFree(p: bytes)
    requires Sealable(p)
    ensures NulFree(p)
  {
  }

  /** A sealable path is its parent joined with a good slash-free basename. */
  lemma SealableSplit(p: bytes)
    requires Sealable(p)
    ensures p == Join(Parent(p), Base(p))
    ensures GoodName(Base(p)) && SLASH !in Base(p) && NulFree(Base(p))
    ensures |Parent(p)| < |p|
    ensures Parent(p) == [] <==> LastSlash(p) < 0
  {
    var r := LastSlash(p);
    SealableBase(p);
    if r >= 0 {
      SealableFirst(p);
      hide Sealable, LastSlash;
      assert p == p[..r] + [SLASH] + p[r + 1..];
    }
  }

  lemma SealableBase(p: bytes)
    requires Sealable(p)
    ensures GoodName(Base(p)) && SLASH !in Base(p) && NulFree(Base(p))
  {
    var r := LastSlash(p);
    assert IsComponent(p, r + 1, |p|);
    assert p[r + 1..|p|] == Base(p);
  }

  lemma SealableFirst(p: bytes)
    requires Sealable(p)
    ensures LastSlash(p) != 0
  {
    assert LastSlash(p) == 0 ==> IsComponent(p, 0, 0);
  }

  /** Every directory above a sealable path is sealable. */
  lemma ParentSealable(p: bytes)
    requires Sealable(p) && Parent(p) != []
    ensures Sealable(Parent(p))
  {
    var d := Parent(p);
    assert d == p[..|d|] && p[|d|] == SLASH;
    forall i, j | IsComponent(d, i, j) ensures GoodName(d[i..j]) {
      assert IsComponent(p, i, j);
      assert d[i..j] == p[i..j];
    }
  }

  lemma ParentStep(p: bytes)
    requires Sealable(p)
    ensures |Parent(p)| < |p|
    ensures Parent(p) != [] ==> Sealable(Parent(p))
  {
    SealableSplit(p);
    if Parent(p) != [] { ParentSealable(p); }
  }

  lemma ParentOfJoin(d: bytes, name: bytes)
    requires SLASH !in name
    ensures Parent(Join(d, name)) == d && Base(Join(d, name)) == name
  {
    var p := Join(d, name);
    if d == [] {
      assert p == name;
      assert LastSlash(p) < 0;
    } else {
      assert p[|d|] == SLASH;
      assert forall k :: |d| < k < |p| ==> p[k] == name[k - |d| - 1];
      assert LastSlash(p) == |d|;
      assert p[..|d|] == d && p[|d| + 1..] == name;
    }
  }

  lemma UnderIndex(d: bytes, p: bytes)
    requires d != []
    ensures Under(d, p) <==> |d| < |p| && p[..|d|] == d && p[|d|] == SLASH
  {
    var e := d + [SLASH];
    assert e[..|d|] == d && e[|d|] == SLASH;
    if |d| < |p| && p[..|d|] == d && p[|d|] == SLASH {
      assert p[..|d| + 1] == e;
    }
    if Under(d, p) {
      assert p[..|e|] == e;
      assert p[|d|] == p[..|e|][|d|];
      assert p[..|d|] == p[..|e|][..|d|];
    }
  }

  /** The ancestor chain: being below d is being d's child or having a parent
      that is below d. */
  lemma UnderStep(d: bytes, p: bytes)
    requires Sealable(p)
    ensures Under(d, p) <==> d == Parent(p) || (Parent(p) != [] && Under(d, Parent(p)))
  {
    SealableSplit(p);
    if d != [] {
      UnderIndex(d, p);
      UnderIndex(d, Parent(p));
      var r := LastSlash(p);
      if r >= 0 {
        assert Parent(p) == p[..r];
        assert |d| < r ==> p[..r][..|d|] == p[..|d|];
      }
    }
  }

  lemma {:induction false} UnderSealable(d: bytes, p: bytes)
    requires Sealable(p) && Under(d, p) && d != []
    ensures Sealable(d)
    decreases |p|
  {
    UnderStep(d, p);
    SealableSplit(p);
    if Parent(p) != [] { ParentSealable(p); }
    if d != Parent(p) { UnderSealable(d, Parent(p)); }
  }

  /** Below a child directory is below the directory. */
  lemma {:induction false} UnderParent(c: bytes, p: bytes)
    requires Sealable(p) && Under(c, p) && c != []
    ensures Under(Parent(c), p)
    decreases |p|
  {
    UnderSealable(c, p);
    UnderStep(c, p);
    SealableSplit(p);
    if c == Parent(p) {
      UnderStep(Parent(c), p);
      UnderStep(Parent(c), c);
    } else {
      ParentSealable(p);
      UnderParent(c, Parent(p));
      UnderStep(Parent(c), p);
    }
  }

  /** The child directory of d that p goes through. */
  ghost function Toward(d: bytes, p: bytes): (c: bytes)
    requires Sealable(p) && Under(d, p) && Parent(p) != d
    ensures c != [] && Parent(c) == d && Under(c, p) && Sealable(c)
    decreases |p|
  {
    UnderStep(d, p);
    SealableSplit(p);
    ParentSealable(p);
    UnderStep(Parent(p), p);
    var q := Parent(p);
    if Parent(q) == d then q
    else
      UnderStep(Toward(d, q), p);
      Toward(d, q)
  }

  /** Each path below d is a file of d or goes through exactly one child. */
  lemma {:induction false} TowardUnique(d: bytes, p: bytes, c: bytes)
    requires Sealable(p) && Under(d, p)
    requires c != [] && Parent(c) == d && Under(c, p)
    ensures Parent(p) != d && c == Toward(d, p)
    decreases |p|
  {
    UnderSealable(c, p);
    SealableSplit(p);
    SealableSplit(c);
    UnderStep(c, p);
    UnderStep(d, p);
    var q := Parent(p);
    ParentSealable(p);
    SealableSplit(q);
    if c != q {
      UnderParent(c, q);
      TowardUnique(d, q, c);
    }
    assert |c| <= |q|;
  }
}
