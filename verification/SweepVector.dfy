/** consensus_rule_sweep: the vector of swept heights. Four families of heights
    are pushed into a bounded buffer, sorted and deduplicated in place. */
module SweepVector {
  import opened Sorting

  const LOW_DENSE_MAX: int := 2000
  const MAX_HORIZON: int := 64000000
  const MAX_BAND: int := 4096
  const INT32_MAX: int := 0x7fff_ffff
  const MAX_TIP: int := INT32_MAX - MAX_HORIZON - MAX_BAND - 2
  const NO_ACTIVATION: int := -1

  datatype Config = Config(tip: int, horizon: int, stride: int, band: int)

  /** crs_validate_config */
  predicate ValidConfig(c: Config) {
    0 <= c.tip <= MAX_TIP && 0 <= c.horizon <= MAX_HORIZON && 0 < c.stride <= MAX_HORIZON && 0 <= c.band <= MAX_BAND
  }

  /** The compiled parameters the vector is built from. */
  datatype Schedule = Schedule(shift: int, pre: int, post: int, buttercup: int, lastFounders: int,
                               activations: seq<int>)

  function MaxHeight(c: Config): int { c.tip + c.horizon + c.band }

  /* ---- what is swept, as a set of heights --------------------------------------- */

  predicate Near(h: int, x: int) { x - 1 <= h <= x + 1 }

  /** h is next to a boundary k * step past `from`, shifted or not. */
  ghost predicate ByBoundary(h: int, from: int, step: int, shift: int, top: int) {
    exists k: nat :: NearBoundary(h, from + k * step, shift, top)
  }

  predicate NearBoundary(h: int, x: int, shift: int, top: int) {
    x <= top && (Near(h, x) || Near(h, x + shift))
  }

  /** h is in the dense band around a stride point. */
  ghost predicate ByStride(h: int, c: Config) {
    exists k: nat :: InBand(h, k * c.stride, c)
  }

  predicate InBand(h: int, off: int, c: Config) {
    off <= c.horizon && c.tip + off - c.band <= h <= c.tip + off + c.band
  }

  predicate Contiguous(c: Config) { 2 * c.band + 1 >= c.stride }

  ghost predicate Forward(h: int, c: Config) {
    if Contiguous(c) then c.tip - c.band <= h <= MaxHeight(c) else ByStride(h, c)
  }

  /** The families that do not depend on the stride. */
  ghost predicate Fixed(h: int, c: Config, p: Schedule) {
    || h <= LOW_DENSE_MAX
    || (p.pre > 0 && ByBoundary(h, 0, p.pre, p.shift, MaxHeight(c)))
    || (p.post > 0 && p.buttercup >= 0 && ByBoundary(h, p.buttercup, p.post, p.shift, MaxHeight(c)))
    || Near(h, p.lastFounders)
    || (exists i :: 0 <= i < |p.activations| && p.activations[i] != NO_ACTIVATION && Near(h, p.activations[i]))
  }

  ghost predicate Swept(h: int, c: Config, p: Schedule) {
    0 <= h <= MaxHeight(c) && (Fixed(h, c, p) || Forward(h, c))
  }

  /* ---- what is pushed, in order ---------------------------------------------------- */

  function Clip(h: int, top: int): seq<int> {
    if 0 <= h <= top then [h] else []
  }

  function Triple(h: int, top: int): seq<int> {
    Clip(h - 1, top) + Clip(h, top) + Clip(h + 1, top)
  }

  function Range(lo: int, hi: int, top: int): seq<int>
    decreases hi - lo + 1
  {
    if lo > hi then [] else Clip(lo, top) + Range(lo + 1, hi, top)
  }

  function Boundaries(h: int, step: int, shift: int, top: int): seq<int>
    requires step > 0
    decreases top - h + 1
  {
    if h > top then [] else Triple(h, top) + Triple(h + shift, top) + Boundaries(h + step, step, shift, top)
  }

  function Activations(a: seq<int>, top: int): seq<int> {
    if a == [] then []
    else (if a[0] == NO_ACTIVATION then [] else Triple(a[0], top)) + Activations(a[1..], top)
  }

  function Strided(s: int, c: Config): seq<int>
    requires c.stride > 0
    decreases c.tip + c.horizon - s + 1
  {
    if s > c.tip + c.horizon then []
    else Range(s - c.band, s + c.band, MaxHeight(c)) + Strided(s + c.stride, c)
  }

  function Halvings(c: Config, p: Schedule): seq<int> {
    (if p.pre > 0 then Boundaries(0, p.pre, p.shift, MaxHeight(c)) else [])
    + (if p.post > 0 && p.buttercup >= 0 then Boundaries(p.buttercup, p.post, p.shift, MaxHeight(c)) else [])
  }

  function Ahead(c: Config): seq<int>
    requires ValidConfig(c)
  {
    if Contiguous(c) then Range(c.tip - c.band, MaxHeight(c), MaxHeight(c)) else Strided(c.tip, c)
  }

  function Emitted(c: Config, p: Schedule): seq<int>
    requires ValidConfig(c)
  {
    var top := MaxHeight(c);
    Range(0, LOW_DENSE_MAX, top) + Halvings(c, p) + Triple(p.lastFounders, top) + Activations(p.activations, top)
      + Ahead(c)
  }

  /* ---- the pushes are the set ---------------------------------------------------------- */

  lemma TripleIff(x: int, h: int, top: int)
    ensures h in Triple(x, top) <==> 0 <= h <= top && Near(h, x)
  {
  }

  lemma RangeEmpty(lo: int, hi: int, top: int)
    requires lo > hi
    ensures Range(lo, hi, top) == []
  {
  }

  lemma RangeFirst(lo: int, hi: int, top: int, h: int)
    requires lo <= hi
    ensures h in Range(lo, hi, top) <==> (0 <= lo <= top && h == lo) || h in Range(lo + 1, hi, top)
  {
    var rest := Range(lo + 1, hi, top);
    assert Range(lo, hi, top) == Clip(lo, top) + rest;
  }

  lemma {:induction false} RangeIff(lo: int, hi: int, top: int, h: int)
    ensures h in Range(lo, hi, top) <==> 0 <= h <= top && lo <= h <= hi
    decreases hi - lo + 1
  {
    hide Range;
    if lo > hi { RangeEmpty(lo, hi, top); }
    if lo <= hi {
      RangeIff(lo + 1, hi, top, h);
      RangeFirst(lo, hi, top, h);
    }
  }

  lemma {:induction false} BoundariesIff(from: int, step: int, shift: int, top: int, h: int)
    requires step > 0
    ensures h in Boundaries(from, step, shift, top) <==> 0 <= h <= top && ByBoundary(h, from, step, shift, top)
    decreases top - from + 1
  {
    hide Triple;
    if from > top {
      forall k: nat ensures !NearBoundary(h, from + k * step, shift, top) { assert k * step >= 0; }
    } else {
      TripleIff(from, h, top);
      TripleIff(from + shift, h, top);
      BoundariesIff(from + step, step, shift, top, h);
      ByBoundaryStep(h, from, step, shift, top);
    }
  }

  lemma ByBoundaryStep(h: int, from: int, step: int, shift: int, top: int)
    requires step > 0
    ensures ByBoundary(h, from, step, shift, top)
        <==> NearBoundary(h, from, shift, top) || ByBoundary(h, from + step, step, shift, top)
  {
    hide NearBoundary;
    if k: nat :| NearBoundary(h, from + k * step, shift, top) {
      if k > 0 {
        assert from + k * step == from + step + (k - 1) * step;
        assert NearBoundary(h, from + step + (k - 1) * step, shift, top);
      }
    }
    if NearBoundary(h, from, shift, top) {
      assert NearBoundary(h, from + 0 * step, shift, top);
    }
    if k: nat :| NearBoundary(h, from + step + k * step, shift, top) {
      assert from + step + k * step == from + (k + 1) * step;
      assert NearBoundary(h, from + (k + 1) * step, shift, top);
    }
  }

  lemma {:induction false} ActivationsIff(a: seq<int>, top: int, h: int)
    ensures h in Activations(a, top) <==>
      0 <= h <= top && exists i :: 0 <= i < |a| && a[i] != NO_ACTIVATION && Near(h, a[i])
  {
    hide Triple;
    if a != [] {
      TripleIff(a[0], h, top);
      ActivationsIff(a[1..], top, h);
      if i :| 0 <= i < |a| && a[i] != NO_ACTIVATION && Near(h, a[i]) {
        if i > 0 { assert a[1..][i - 1] == a[i]; }
      }
      if i :| 0 <= i < |a[1..]| && a[1..][i] != NO_ACTIVATION && Near(h, a[1..][i]) { assert a[i + 1] == a[1..][i]; }
    }
  }

  lemma {:induction false} StridedIff(off: int, c: Config, h: int)
    requires c.stride > 0
    ensures h in Strided(c.tip + off, c)
        <==> 0 <= h <= MaxHeight(c) && exists k: nat :: InBand(h, off + k * c.stride, c)
    decreases c.horizon - off + 1
  {
    hide Range;
    var top := MaxHeight(c);
    if off > c.horizon {
      forall k: nat ensures !InBand(h, off + k * c.stride, c) { assert k * c.stride >= 0; }
    } else {
      RangeIff(c.tip + off - c.band, c.tip + off + c.band, top, h);
      StridedIff(off + c.stride, c, h);
      assert InBand(h, off, c) <==> c.tip + off - c.band <= h <= c.tip + off + c.band;
      InBandStep(h, off, c);
    }
  }

  lemma InBandStep(h: int, off: int, c: Config)
    requires c.stride > 0
    ensures (exists k: nat :: InBand(h, off + k * c.stride, c))
        <==> InBand(h, off, c) || exists k: nat :: InBand(h, off + c.stride + k * c.stride, c)
  {
    hide InBand;
    if k: nat :| InBand(h, off + k * c.stride, c) {
      if k > 0 {
        assert off + k * c.stride == off + c.stride + (k - 1) * c.stride;
        assert InBand(h, off + c.stride + (k - 1) * c.stride, c);
      }
    }
    if InBand(h, off, c) { assert InBand(h, off + 0 * c.stride, c); }
    if k: nat :| InBand(h, off + c.stride + k * c.stride, c) {
      assert off + c.stride + k * c.stride == off + (k + 1) * c.stride;
      assert InBand(h, off + (k + 1) * c.stride, c);
    }
  }

  lemma AheadIff(c: Config, h: int)
    requires ValidConfig(c)
    ensures h in Ahead(c) <==> 0 <= h <= MaxHeight(c) && Forward(h, c)
  {
    hide Range, Strided, InBand;
    if Contiguous(c) {
      RangeIff(c.tip - c.band, MaxHeight(c), MaxHeight(c), h);
    } else {
      StridedIff(0, c, h);
      forall k: nat ensures 0 + k * c.stride == k * c.stride {}
    }
  }

  /** The heights pushed are exactly the heights of the four families, clipped. */
  lemma EmittedIff(c: Config, p: Schedule, h: int)
    requires ValidConfig(c)
    ensures h in Emitted(c, p) <==> Swept(h, c, p)
  {
    hide Range, Boundaries, Triple, Activations, Ahead, ByBoundary, Forward;
    var top := MaxHeight(c);
    RangeIff(0, LOW_DENSE_MAX, top, h);
    if p.pre > 0 { BoundariesIff(0, p.pre, p.shift, top, h); }
    if p.post > 0 { BoundariesIff(p.buttercup, p.post, p.shift, top, h); }
    TripleIff(p.lastFounders, h, top);
    ActivationsIff(p.activations, top, h);
    AheadIff(c, h);
  }

  /* ---- the contiguous shortcut ------------------------------------------------------------ */

  /** The bands around the stride points always lie inside the contiguous range. */
  lemma StrideInRange(c: Config, h: int)
    requires ValidConfig(c) && ByStride(h, c)
    ensures c.tip - c.band <= h <= MaxHeight(c)
  {
    var k: nat :| InBand(h, k * c.stride, c);
    assert k * c.stride >= 0;
  }

  /** When the bands touch they leave no hole up to any of them. */
  lemma {:induction false} BandsTouch(c: Config, h: int, k: nat)
    requires ValidConfig(c) && Contiguous(c) && k * c.stride <= c.horizon
    requires c.tip - c.band <= h <= c.tip + k * c.stride + c.band
    ensures ByStride(h, c)
  {
    if h >= c.tip + k * c.stride - c.band {
      assert InBand(h, k * c.stride, c);
    } else {
      assert k * c.stride == (k - 1) * c.stride + c.stride;
      BandsTouch(c, h, k - 1);
    }
  }

  /** The shortcut emits every stride band, and nothing else exactly when the
      stride divides the horizon; otherwise it adds the heights past the last band. */
  lemma ShortcutExactIff(c: Config)
    requires ValidConfig(c) && Contiguous(c)
    ensures forall h :: ByStride(h, c) ==> Forward(h, c)
    ensures (forall h :: Forward(h, c) <==> ByStride(h, c)) <==> c.horizon % c.stride == 0
  {
    hide ByStride;
    assert c.horizon == c.horizon / c.stride * c.stride + c.horizon % c.stride;
    forall h | ByStride(h, c) ensures Forward(h, c) { StrideInRange(c, h); }
    if c.horizon % c.stride == 0 {
      forall h | Forward(h, c) ensures ByStride(h, c) { BandsTouch(c, h, c.horizon / c.stride); }
    } else {
      TopNotStrided(c);
      assert Forward(MaxHeight(c), c);
    }
  }

  /** The condition under which the top of the range is swept. */
  ghost predicate Reaches(c: Config, p: Schedule)
    requires c.stride > 0
  {
    Contiguous(c) || c.horizon % c.stride == 0 || Fixed(MaxHeight(c), c, p)
  }

  lemma TopSweptIff(c: Config, p: Schedule)
    requires ValidConfig(c)
    ensures Swept(MaxHeight(c), c, p) <==> Reaches(c, p)
  {
    hide Fixed, ByStride;
    var q := c.horizon / c.stride;
    assert c.horizon == q * c.stride + c.horizon % c.stride;
    if c.horizon % c.stride == 0 {
      LastPoint(c, q);
    } else {
      TopNotStrided(c);
    }
  }

  lemma LastPoint(c: Config, q: nat)
    requires ValidConfig(c) && q * c.stride == c.horizon
    ensures ByStride(MaxHeight(c), c)
  {
    assert InBand(MaxHeight(c), q * c.stride, c);
  }

  /** The compiled main network: core/chainparams/src/chainparams.c, lines 108-138. */
  function MainSchedule(): Schedule {
    Schedule(1, 840000, 1680000, 707000, 840000, [0, NO_ACTIVATION, 476969, 476969, 585318, 585322, 707000])
  }

  /** A gap the sampling leaves: the default tip, stride and band with a horizon of
      1500 sweep nothing in the last 500 heights of the range. */
  lemma GapAboveLastBand(h: int)
    ensures var c := Config(3108561, 1500, 1000, 4);
            && ValidConfig(c) && MaxHeight(c) == 3110065
            && (Swept(h, c, MainSchedule()) ==> h <= 3109565)
            && Swept(3109565, c, MainSchedule())
  {
    var c, p := Config(3108561, 1500, 1000, 4), MainSchedule();
    assert InBand(3109565, 1 * c.stride, c);
    if Swept(h, c, p) && h > 3109565 {
      forall k: nat ensures !InBand(h, k * c.stride, c) { assert k <= 1 || k >= 2; }
      forall k: nat ensures !NearBoundary(h, 0 + k * p.pre, p.shift, MaxHeight(c)) { assert k <= 3 || k >= 4; }
      forall k: nat ensures !NearBoundary(h, p.buttercup + k * p.post, p.shift, MaxHeight(c)) {
        assert k <= 1 || k >= 2;
      }
      assert false;
    }
  }

  lemma TopNotStrided(c: Config)
    requires ValidConfig(c) && c.horizon % c.stride != 0
    ensures !ByStride(MaxHeight(c), c)
  {
    forall k: nat ensures !InBand(MaxHeight(c), k * c.stride, c) {
      if k * c.stride == c.horizon { MultipleMod(k, c.stride); }
    }
  }

  lemma MultipleMod(k: nat, n: nat)
    requires n > 0
    ensures k * n % n == 0
  {
    var q, r := k * n / n, k * n % n;
    assert k * n == q * n + r;
    assert (k - q) * n == r;
    MulBounds(k - q, n);
  }

  lemma MulBounds(a: int, n: int)
    requires n > 0
    ensures a >= 1 ==> a * n >= n
    ensures a <= -1 ==> a * n <= -n
  {
    if a >= 1 { assert (a - 1) * n >= 0; }
    if a <= -1 { assert (-a - 1) * n >= 0; }
  }

  /* ---- building it ------------------------------------------------------------------------------ */

  /** The caller's buffer, how much of it is used, and whether a push missed. */
  class Buffer {
    const v: array<int>
    var n: nat
    var overflow: bool

    /** The pushes so far, in order; only as many as fit are stored. */
    ghost predicate Holds(e: seq<int>)
      reads this, v
    {
      && n == (if |e| <= v.Length then |e| else v.Length)
      && v[..n] == e[..n]
      && overflow == (|e| > v.Length)
    }

    constructor (v: array<int>)
      ensures this.v == v && Holds([])
    {
      this.v := v;
      n, overflow := 0, false;
    }

    /** crs_push */
    method Push(h: int, top: int, ghost e: seq<int>)
      requires Holds(e)
      modifies this, v
      ensures Holds(e + Clip(h, top))
    {
      if h < 0 || h > top { return; }
      if n >= v.Length {
        overflow := true;
      } else {
        v[n] := h;
        n := n + 1;
      }
    }

    /** crs_push_triple */
    method PushTriple(h: int, top: int, ghost e: seq<int>)
      requires Holds(e)
      modifies this, v
      ensures Holds(e + Triple(h, top))
    {
      hide Holds, Clip;
      Push(h - 1, top, e);
      Push(h, top, e + Clip(h - 1, top));
      Push(h + 1, top, e + Clip(h - 1, top) + Clip(h, top));
      assert e + Triple(h, top) == e + Clip(h - 1, top) + Clip(h, top) + Clip(h + 1, top);
    }

    method PushRange(lo: int, hi: int, top: int, ghost e: seq<int>)
      requires Holds(e)
      modifies this, v
      ensures Holds(e + Range(lo, hi, top))
    {
      hide Holds, Clip;
      var h := lo;
      ghost var f := e;
      while h <= hi
        invariant h <= hi + 1 || h == lo
        invariant Holds(f) && f + Range(h, hi, top) == e + Range(lo, hi, top)
        decreases hi - h + 1
      {
        Push(h, top, f);
        assert f + Range(h, hi, top) == f + Clip(h, top) + Range(h + 1, hi, top);
        f := f + Clip(h, top);
        h := h + 1;
      }
      assert f + [] == f;
    }

    method PushBoundaries(from: int, step: int, shift: int, top: int, ghost e: seq<int>)
      requires Holds(e) && step > 0
      modifies this, v
      ensures Holds(e + Boundaries(from, step, shift, top))
    {
      hide Holds, Triple;
      var h := from;
      ghost var f := e;
      while h <= top
        invariant Holds(f) && f + Boundaries(h, step, shift, top) == e + Boundaries(from, step, shift, top)
        decreases top - h + 1
      {
        PushTriple(h, top, f);
        PushTriple(h + shift, top, f + Triple(h, top));
        assert f + Boundaries(h, step, shift, top)
            == f + Triple(h, top) + Triple(h + shift, top) + Boundaries(h + step, step, shift, top);
        f := f + Triple(h, top) + Triple(h + shift, top);
        h := h + step;
      }
      assert f + [] == f;
    }

    method PushActivations(a: seq<int>, top: int, ghost e: seq<int>)
      requires Holds(e)
      modifies this, v
      ensures Holds(e + Activations(a, top))
    {
      hide Holds, Triple;
      ghost var f := e;
      assert a[0..] == a;
      for i := 0 to |a|
        invariant Holds(f) && f + Activations(a[i..], top) == e + Activations(a, top)
      {
        assert a[i..][1..] == a[i + 1..];
        ghost var more := if a[i] == NO_ACTIVATION then [] else Triple(a[i], top);
        assert f + Activations(a[i..], top) == f + more + Activations(a[i + 1..], top);
        if a[i] != NO_ACTIVATION {
          PushTriple(a[i], top, f);
        } else {
          assert f + more == f;
        }
        f := f + more;
      }
      assert a[|a|..] == [] && f + [] == f;
    }

    method PushStrided(c: Config, ghost e: seq<int>)
      requires Holds(e) && ValidConfig(c)
      modifies this, v
      ensures Holds(e + Strided(c.tip, c))
    {
      hide Holds, Range;
      var s := c.tip;
      ghost var f := e;
      while s <= c.tip + c.horizon
        invariant Holds(f) && f + Strided(s, c) == e + Strided(c.tip, c)
        decreases c.tip + c.horizon - s + 1
      {
        PushRange(s - c.band, s + c.band, MaxHeight(c), f);
        assert f + Strided(s, c) == f + Range(s - c.band, s + c.band, MaxHeight(c)) + Strided(s + c.stride, c);
        f := f + Range(s - c.band, s + c.band, MaxHeight(c));
        s := s + c.stride;
      }
      assert f + [] == f;
    }
  }

  predicate Sorted(s: seq<int>) { forall i, j :: 0 <= i < j < |s| ==> s[i] <= s[j] }

  predicate Ascending(s: seq<int>) { forall i, j :: 0 <= i < j < |s| ==> s[i] < s[j] }

  /** crs_cmp_i32 */
  predicate UpTo(a: int, b: int) { a <= b }

  /** qsort with crs_cmp_i32. */
  method SortHeights(s: seq<int>) returns (r: seq<int>)
    ensures Sorted(r) && multiset(r) == multiset(s)
  {
    r := Sort(UpTo, s);
    assert forall i, j :: 0 <= i < j < |r| ==> UpTo(r[i], r[j]);
  }

  datatype Status = Ok | BadConfig | Capacity

  /** A sorted sequence with repeats dropped. */
  function Deduped(s: seq<int>): seq<int> {
    if |s| < 2 then s
    else
      var n := |s| - 1;
      if s[n] == s[n - 1] then Deduped(s[..n]) else Deduped(s[..n]) + [s[n]]
  }

  lemma {:induction false} DedupedGood(s: seq<int>)
    requires Sorted(s)
    ensures var d := Deduped(s);
            && |d| <= |s| && Ascending(d) && (s != [] ==> d != [] && d[|d| - 1] == s[|s| - 1])
            && forall h :: h in d <==> h in s
    decreases |s|
  {
    if |s| >= 2 {
      var n := |s| - 1;
      DedupedGood(s[..n]);
      assert s == s[..n] + [s[n]] && s[..n][n - 1] == s[n - 1];
      assert s[n - 1] in s[..n];
    }
  }

  /** Sorts and deduplicates the first n entries in place. */
  method SortDedupe(out: array<int>, n: nat) returns (w: nat)
    requires n <= out.Length
    modifies out
    ensures w <= n && Ascending(out[..w])
    ensures forall h :: h in out[..w] <==> h in old(out[..n])
  {
    hide Ascending, Sorted;
    var sorted := SortHeights(out[..n]);
    SameElements(sorted, out[..n]);
    Overwrite(out, sorted);
    w := Dedupe(out, n, sorted);
    DedupedGood(sorted);
  }

  method Overwrite(out: array<int>, s: seq<int>)
    requires |s| <= out.Length
    modifies out
    ensures out[..|s|] == s
  {
    for k := 0 to |s|
      invariant out[..k] == s[..k]
    {
      out[k] := s[k];
    }
  }

  /** The compaction loop. */
  method Dedupe(out: array<int>, n: nat, ghost sorted: seq<int>) returns (w: nat)
    requires n <= out.Length && out[..n] == sorted && Sorted(sorted)
    modifies out
    ensures w <= n && out[..w] == Deduped(sorted)
  {
    hide Sorted, Deduped, Ascending;
    w := 0;
    DedupedEnds(sorted, 0);
    for i := 0 to n
      modifies out
      invariant w <= i && out[..w] == Deduped(sorted[..i]) && out[i..n] == sorted[i..]
    {
      DedupedEnds(sorted, i);
      ghost var before := out[..w];
      assert out[i] == out[i..n][0] == sorted[i];
      assert w > 0 ==> before[w - 1] == out[w - 1];
      if w == 0 || out[w - 1] != out[i] {
        out[w] := out[i];
        w := w + 1;
        assert out[..w] == before + [sorted[i]];
      }
      assert out[i + 1..n] == sorted[i + 1..];
    }
    assert sorted[..n] == sorted;
  }

  lemma DedupedEnds(s: seq<int>, i: nat)
    requires Sorted(s) && i <= |s|
    ensures |Deduped(s[..i])| <= i && (i > 0 ==> Deduped(s[..i]) != [])
    ensures i == 0 ==> Deduped(s[..i]) == []
    ensures i < |s| ==> var d := Deduped(s[..i]);
              Deduped(s[..i + 1]) == if d == [] || d[|d| - 1] != s[i] then d + [s[i]] else d
  {
    hide Ascending;
    assert Sorted(s[..i]);
    DedupedGood(s[..i]);
    if i < |s| { assert s[..i + 1][..i] == s[..i]; }
  }

  /** crs_build_vector: fails closed exactly when the pushes do not fit; otherwise
      the vector is strictly ascending and holds exactly the swept heights, and
      every height and the top itself fit an int32. */
  method BuildVector(c: Config, p: Schedule, out: array<int>) returns (status: Status, n: nat)
    modifies out
    ensures status.BadConfig? <==> !ValidConfig(c)
    ensures ValidConfig(c) ==> (status.Capacity? <==> |Emitted(c, p)| > out.Length)
    ensures status.Ok? ==> n <= out.Length && Ascending(out[..n]) && forall h :: h in out[..n] <==> Swept(h, c, p)
    ensures status.Ok? ==> MaxHeight(c) <= INT32_MAX && forall h :: h in out[..n] ==> 0 <= h <= MaxHeight(c)
  {
    hide Emitted, Swept, Ascending;
    n := 0;
    if !ValidConfig(c) { return BadConfig, 0; }
    var buf := new Buffer(out);
    PushAll(c, p, buf);
    ghost var f := Emitted(c, p);
    if buf.overflow { return Capacity, 0; }
    assert out[..buf.n] == f;
    n := SortDedupe(out, buf.n);
    forall h ensures h in f <==> Swept(h, c, p) { EmittedIff(c, p, h); }
    forall h | h in out[..n] ensures 0 <= h <= MaxHeight(c) { SweptRange(c, p, h); }
    status := Ok;
  }

  lemma SweptRange(c: Config, s: Schedule, h: int)
    requires Swept(h, c, s)
    ensures 0 <= h <= MaxHeight(c)
  {
  }

  method PushAll(c: Config, p: Schedule, buf: Buffer)
    requires ValidConfig(c) && buf.Holds([])
    modifies buf, buf.v
    ensures buf.Holds(Emitted(c, p))
  {
    hide Range, Boundaries, Triple, Activations, Strided, Buffer.Holds;
    var top := MaxHeight(c);
    ghost var e := Range(0, LOW_DENSE_MAX, top);
    buf.PushRange(0, LOW_DENSE_MAX, top, []);
    assert [] + e == e;
    ghost var f := e;
    if p.pre > 0 {
      buf.PushBoundaries(0, p.pre, p.shift, top, f);
      f := f + Boundaries(0, p.pre, p.shift, top);
    }
    if p.post > 0 && p.buttercup >= 0 {
      buf.PushBoundaries(p.buttercup, p.post, p.shift, top, f);
      f := f + Boundaries(p.buttercup, p.post, p.shift, top);
    }
    assert f == e + Halvings(c, p);
    buf.PushTriple(p.lastFounders, top, f);
    f := f + Triple(p.lastFounders, top);
    buf.PushActivations(p.activations, top, f);
    f := f + Activations(p.activations, top);
    if Contiguous(c) {
      buf.PushRange(c.tip - c.band, top, top, f);
    } else {
      buf.PushStrided(c, f);
    }
  }
}
