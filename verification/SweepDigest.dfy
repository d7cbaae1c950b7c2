/** consensus_rule_sweep: the digest preimage. The header and every evaluated row
    are absorbed as fixed-width or length-prefixed fields; the preimage
    determines everything absorbed. */
module SweepDigest {
  import opened Bytes
  import opened Fields
  import opened SweepVector

  const SLOTS: nat := 7
  const MAX_FOUNDERS: nat := 48

  /** crs_default_config */
  const DEFAULT_CONFIG: Config := Config(3108561, 4000000, 1000, 4)

  type int32 = x: int | -0x8000_0000 <= x < 0x8000_0000
  type int64 = x: int | -0x8000_0000_0000_0000 <= x < 0x8000_0000_0000_0000
  type uint32 = x: int | 0 <= x < 0x1_0000_0000
  type uint64 = x: int | 0 <= x < 0x1_0000_0000_0000_0000
  type Bits2 = x: int | 0 <= x < 4

  datatype Upgrade = Upgrade(activation: int32, protocol: int32, branchId: uint32, n: uint32, k: uint32)

  /** Every compiled parameter that is absorbed. */
  datatype Params = Params(
    network: bytes, currency: bytes,
    coinbaseProtected: bool, slowStart: int32, preHalving: int32, postHalving: int32, lastFounders: int32,
    majorityEnforce: int32, majorityReject: int32, majorityWindow: int32,
    powLimit: bytes, minDifficultyAfter: int32, minDifficulty: bool, scaleAtFork: bool,
    averagingWindow: int64, maxAdjustDown: int64, maxAdjustUp: int64, preSpacing: int64, postSpacing: int64,
    minimumWork: bytes, genesis: bytes, upgrades: seq<Upgrade>,
    equihashN: uint32, equihashK: uint32, port: int32, pruneAfter: uint64, magic: bytes,
    foundersCount: uint64, founders: seq<bytes>,
    maxBlockSize: uint64, maxTxSize: uint64, sigops: uint32, maxTxBefore: uint32, maturity: uint32, minVersion: uint32,
    expiry: uint32)

  /** One evaluated height (struct crs_row), with the upgrade slots unpacked. */
  datatype Row = Row(
    height: int32, subsidy: int64, subsidyOk: bool, subsidyCode: int32, halvings: int32,
    active: seq<bool>, states: seq<Bits2>, epoch: int32, branchId: uint32, n: uint32, k: uint32, powLimit: bytes,
    spacing: int64, window: int64, minTimespan: int64, maxTimespan: int64, maxBlockSize: uint64, maxTxSize: uint64,
    checkpoints: bytes)

  /** The sizes the C types fix. */
  ghost predicate WfParams(p: Params) {
    && |p.network| < Pow256(8) && |p.currency| < Pow256(8)
    && |p.powLimit| == 32 && |p.minimumWork| == 32 && |p.genesis| == 32 && |p.magic| < Pow256(8)
    && |p.upgrades| == SLOTS
    && |p.founders| == (if p.foundersCount < MAX_FOUNDERS then p.foundersCount else MAX_FOUNDERS)
    && forall i :: 0 <= i < |p.founders| ==> |p.founders[i]| < Pow256(8)
  }

  predicate WfRow(r: Row) {
    |r.active| == SLOTS && |r.states| == SLOTS && |r.powLimit| == 32 && |r.checkpoints| == 32
  }

  ghost predicate Wf(c: Config, p: Params, rows: seq<Row>) {
    && ValidConfig(c) && WfParams(p) && |rows| < Pow256(8)
    && forall i :: 0 <= i < |rows| ==> WfRow(rows[i])
  }

  /* ---- packed upgrade slots -------------------------------------------------------- */

  /** Digits in the given base, lowest first. */
  function Digits(d: seq<int>, base: nat): int {
    if d == [] then 0 else d[0] + base * Digits(d[1..], base)
  }

  predicate DigitsIn(d: seq<int>, base: nat) {
    forall i :: 0 <= i < |d| ==> 0 <= d[i] < base
  }

  function Flags(a: seq<bool>): (d: seq<int>)
    ensures |d| == |a| && forall i :: 0 <= i < |a| ==> d[i] == if a[i] then 1 else 0
  {
    seq(|a|, i requires 0 <= i < |a| => if a[i] then 1 else 0)
  }

  /** upgrade_active_mask: bit i is slot i. */
  function Mask(a: seq<bool>): int { Digits(Flags(a), 2) }

  /** upgrade_state_packed: two bits per slot. */
  function Packed(s: seq<Bits2>): int { Digits(s, 4) }

  lemma {:induction false} Digits2Injective(d: seq<int>, e: seq<int>)
    requires |d| == |e| && DigitsIn(d, 2) && DigitsIn(e, 2) && Digits(d, 2) == Digits(e, 2)
    ensures d == e
  {
    if d != [] {
      assert d[0] == e[0];
      Digits2Injective(d[1..], e[1..]);
      assert d == [d[0]] + d[1..] && e == [e[0]] + e[1..];
    }
  }

  lemma {:induction false} Digits4Injective(d: seq<int>, e: seq<int>)
    requires |d| == |e| && DigitsIn(d, 4) && DigitsIn(e, 4) && Digits(d, 4) == Digits(e, 4)
    ensures d == e
  {
    if d != [] {
      assert d[0] == e[0];
      Digits4Injective(d[1..], e[1..]);
      assert d == [d[0]] + d[1..] && e == [e[0]] + e[1..];
    }
  }

  lemma MaskInjective(a: seq<bool>, b: seq<bool>)
    requires |a| == |b| && Mask(a) == Mask(b)
    ensures a == b
  {
    Digits2Injective(Flags(a), Flags(b));
    assert forall i :: 0 <= i < |a| ==> (a[i] <==> Flags(a)[i] == 1) && (b[i] <==> Flags(b)[i] == 1);
  }

  /* ---- rows ------------------------------------------------------------------------------ */

  function Bit(b: bool): int { if b then 1 else 0 }

  /** crs_absorb_row */
  function RowFields(r: Row): (f: seq<Field>)
    ensures |f| == 19
  {
    [I32(r.height), I64(r.subsidy), U8(Bit(r.subsidyOk)), I32(r.subsidyCode), I32(r.halvings),
     U64(Mask(r.active)), U64(Packed(r.states)), I32(r.epoch), U32(r.branchId), U32(r.n), U32(r.k), Raw(r.powLimit),
     I64(r.spacing), I64(r.window), I64(r.minTimespan), I64(r.maxTimespan), U64(r.maxBlockSize), U64(r.maxTxSize),
     Raw(r.checkpoints)]
  }

  lemma {:induction false} MaskBelow(d: seq<int>)
    requires DigitsIn(d, 2)
    ensures 0 <= Digits(d, 2) < Pow256(|d|)
  {
    if d != [] { MaskBelow(d[1..]); }
  }

  lemma {:induction false} PackedBelow(d: seq<int>)
    requires DigitsIn(d, 4)
    ensures 0 <= Digits(d, 4) < Pow256(|d|)
  {
    if d != [] { PackedBelow(d[1..]); }
  }

  lemma RowInRange(r: Row)
    requires WfRow(r)
    ensures AllInRange(RowFields(r))
  {
    hide Mask, Packed;
    Pow256Values();
    assert Pow256(8) == 256 * Pow256(7);
    MaskBelow(Flags(r.active));
    PackedBelow(r.states);
    assert 0 <= Mask(r.active) < Pow256(7) && 0 <= Packed(r.states) < Pow256(7) by { MaskIs(r); }
  }

  lemma MaskIs(r: Row)
    ensures Mask(r.active) == Digits(Flags(r.active), 2) && Packed(r.states) == Digits(r.states, 4)
  {
  }

  lemma RowFieldsInjective(a: Row, b: Row)
    requires WfRow(a) && WfRow(b) && RowFields(a) == RowFields(b)
    ensures a == b
  {
    hide Mask, Packed;
    var f, g := RowFields(a), RowFields(b);
    assert f[0] == g[0] && f[1] == g[1] && f[2] == g[2] && f[3] == g[3] && f[4] == g[4] && f[5] == g[5] && f[6] == g[6]
      && f[7] == g[7] && f[8] == g[8] && f[9] == g[9] && f[10] == g[10] && f[11] == g[11] && f[12] == g[12]
      && f[13] == g[13] && f[14] == g[14] && f[15] == g[15] && f[16] == g[16] && f[17] == g[17] && f[18] == g[18];
    MaskInjective(a.active, b.active);
    MaskIs(a);
    MaskIs(b);
    Digits4Injective(a.states, b.states);
  }

  function RowsBytes(rows: seq<Row>): bytes {
    if rows == [] then [] else EncodeAll(RowFields(rows[0])) + RowsBytes(rows[1..])
  }

  lemma {:induction false} RowsSplit(a: seq<Row>, b: seq<Row>)
    requires |a| == |b| && RowsBytes(a) == RowsBytes(b)
    requires (forall i :: 0 <= i < |a| ==> WfRow(a[i])) && forall i :: 0 <= i < |b| ==> WfRow(b[i])
    ensures a == b
  {
    hide RowFields, EncodeAll;
    if a != [] {
      RowInRange(a[0]);
      RowInRange(b[0]);
      RowsAlike(a[0], b[0]);
      FieldsSplit(RowFields(a[0]), RowFields(b[0]), RowsBytes(a[1..]), RowsBytes(b[1..]));
      RowFieldsInjective(a[0], b[0]);
      RowsSplit(a[1..], b[1..]);
      assert a == [a[0]] + a[1..] && b == [b[0]] + b[1..];
    }
  }

  lemma RowsAlike(a: Row, b: Row)
    requires WfRow(a) && WfRow(b)
    ensures AllAlike(RowFields(a), RowFields(b))
  {
  }

  /* ---- the header -------------------------------------------------------------------------- */

  /** consensus_subsidy_slow_start_shift: C division truncates toward zero. */
  /** Half the slow start, rounded towards zero. */
  function Shift(slowStart: int): (r: int)
    ensures if slowStart >= 0 then 0 <= 2 * r <= slowStart <= 2 * r + 1 else 2 * r - 1 <= slowStart <= 2 * r <= 0
  {
    if slowStart >= 0 then slowStart / 2 else -(-slowStart / 2)
  }

  function Domain(): bytes { Ascii("zcl.consensus_rule_sweep.v1") + [0] }

  /** crs_absorb_header: the question asked. */
  function Question(c: Config, p: Params, rows: int): seq<Field> {
    [Text(Domain()), Text(p.network), Text(p.currency),
     I64(c.tip), I64(c.horizon), I64(c.stride), I64(c.band), I64(LOW_DENSE_MAX), U64(rows), U32(SLOTS)]
  }

  /** crs_absorb_header: the subsidy and majority rules. */
  function Rules(p: Params): seq<Field> {
    [U8(Bit(p.coinbaseProtected)), I32(p.slowStart), I32(Shift(p.slowStart)), I32(p.preHalving), I32(p.postHalving),
     I32(p.lastFounders), I32(p.majorityEnforce), I32(p.majorityReject), I32(p.majorityWindow)]
  }

  /** crs_absorb_header: the proof-of-work rules, up to the activation schedule. */
  function Work(p: Params): seq<Field> {
    [Raw(p.powLimit), I32(p.minDifficultyAfter), U8(Bit(p.minDifficulty)), U8(Bit(p.scaleAtFork)),
     I64(p.averagingWindow), I64(p.maxAdjustDown), I64(p.maxAdjustUp), I64(p.preSpacing), I64(p.postSpacing),
     Raw(p.minimumWork), Raw(p.genesis)]
  }

  function UpgradeFields(u: Upgrade): seq<Field> {
    [I32(u.activation), I32(u.protocol), U32(u.branchId), U32(u.n), U32(u.k)]
  }

  function UpgradesBytes(u: seq<Upgrade>): bytes {
    if u == [] then [] else EncodeAll(UpgradeFields(u[0])) + UpgradesBytes(u[1..])
  }

  function Middle(p: Params): seq<Field> {
    [U32(p.equihashN), U32(p.equihashK), I32(p.port), U64(p.pruneAfter), Text(p.magic), U64(p.foundersCount)]
  }

  function FoundersBytes(f: seq<bytes>): bytes {
    if f == [] then [] else EncodeAll([Text(f[0])]) + FoundersBytes(f[1..])
  }

  function Closing(p: Params): seq<Field> {
    [U64(p.maxBlockSize), U64(p.maxTxSize), U32(p.sigops), U32(p.maxTxBefore), U32(p.maturity), U32(p.minVersion),
     U32(p.expiry)]
  }

  function Preimage(c: Config, p: Params, rows: seq<Row>): bytes {
    EncodeAll(Question(c, p, |rows|)) + (EncodeAll(Rules(p)) + (EncodeAll(Work(p)) + AfterRules(p, rows)))
  }

  function AfterRules(p: Params, rows: seq<Row>): bytes {
    UpgradesBytes(p.upgrades) + (EncodeAll(Middle(p)) + AfterCount(p, rows))
  }

  function AfterCount(p: Params, rows: seq<Row>): bytes {
    FoundersBytes(p.founders) + (EncodeAll(Closing(p)) + RowsBytes(rows))
  }

  /** Equal questions were asked with the same vector definition. */
  lemma QuestionSplit(c: Config, p: Params, rows: nat, x: bytes, c': Config, p': Params, rows': nat, y: bytes)
    requires ValidConfig(c) && WfParams(p) && rows < Pow256(8) && ValidConfig(c') && WfParams(p') && rows' < Pow256(8)
    requires EncodeAll(Question(c, p, rows)) + x == EncodeAll(Question(c', p', rows')) + y
    ensures c == c' && rows == rows' && p.network == p'.network && p.currency == p'.currency && x == y
  {
    hide EncodeAll, Domain;
    var f, g := Question(c, p, rows), Question(c', p', rows');
    Pow256Values();
    DomainShort();
    FieldsSplit(f, g, x, y);
    assert f[1] == g[1] && f[2] == g[2] && f[3] == g[3] && f[4] == g[4] && f[5] == g[5] && f[6] == g[6] && f[8] == g[8];
  }

  lemma DomainShort()
    ensures |Domain()| == 28
  {
  }

  lemma RulesSplit(p: Params, x: bytes, p': Params, y: bytes)
    requires EncodeAll(Rules(p)) + x == EncodeAll(Rules(p')) + y
    ensures p.coinbaseProtected == p'.coinbaseProtected && p.slowStart == p'.slowStart && p.preHalving == p'.preHalving
    ensures p.postHalving == p'.postHalving && p.lastFounders == p'.lastFounders
      && p.majorityEnforce == p'.majorityEnforce
    ensures p.majorityReject == p'.majorityReject && p.majorityWindow == p'.majorityWindow && x == y
  {
    hide EncodeAll;
    var f, g := Rules(p), Rules(p');
    Pow256Values();
    FieldsSplit(f, g, x, y);
    assert f[0] == g[0] && f[1] == g[1] && f[3] == g[3] && f[4] == g[4] && f[5] == g[5] && f[6] == g[6] && f[7] == g[7]
      && f[8] == g[8];
  }

  lemma WorkSplit(p: Params, x: bytes, p': Params, y: bytes)
    requires WfParams(p) && WfParams(p') && EncodeAll(Work(p)) + x == EncodeAll(Work(p')) + y
    ensures p.powLimit == p'.powLimit && p.minDifficultyAfter == p'.minDifficultyAfter
      && p.minDifficulty == p'.minDifficulty
    ensures p.scaleAtFork == p'.scaleAtFork && p.averagingWindow == p'.averagingWindow
      && p.maxAdjustDown == p'.maxAdjustDown
    ensures p.maxAdjustUp == p'.maxAdjustUp && p.preSpacing == p'.preSpacing && p.postSpacing == p'.postSpacing
    ensures p.minimumWork == p'.minimumWork && p.genesis == p'.genesis && x == y
  {
    hide EncodeAll;
    var f, g := Work(p), Work(p');
    Pow256Values();
    FieldsSplit(f, g, x, y);
    assert f[0] == g[0] && f[1] == g[1] && f[2] == g[2] && f[3] == g[3] && f[4] == g[4] && f[5] == g[5] && f[6] == g[6]
      && f[7] == g[7] && f[8] == g[8] && f[9] == g[9] && f[10] == g[10];
  }

  lemma {:induction false} UpgradesSplit(a: seq<Upgrade>, b: seq<Upgrade>, x: bytes, y: bytes)
    requires |a| == |b| && UpgradesBytes(a) + x == UpgradesBytes(b) + y
    ensures a == b && x == y
    decreases |a|
  {
    hide EncodeAll;
    if a == [] {
      assert UpgradesBytes(a) + x == x && UpgradesBytes(b) + y == y;
    } else {
      Pow256Values();
      var f, g := UpgradeFields(a[0]), UpgradeFields(b[0]);
      var r, s := UpgradesBytes(a[1..]) + x, UpgradesBytes(b[1..]) + y;
      assert EncodeAll(f) + r == UpgradesBytes(a) + x && EncodeAll(g) + s == UpgradesBytes(b) + y;
      FieldsSplit(f, g, r, s);
      assert f[0] == g[0] && f[1] == g[1] && f[2] == g[2] && f[3] == g[3] && f[4] == g[4];
      UpgradesSplit(a[1..], b[1..], x, y);
      assert a == [a[0]] + a[1..] && b == [b[0]] + b[1..];
    }
  }

  lemma {:induction false} FoundersSplit(a: seq<bytes>, b: seq<bytes>, x: bytes, y: bytes)
    requires |a| == |b| && FoundersBytes(a) + x == FoundersBytes(b) + y
    requires (forall i :: 0 <= i < |a| ==> |a[i]| < Pow256(8)) && forall i :: 0 <= i < |b| ==> |b[i]| < Pow256(8)
    ensures a == b && x == y
    decreases |a|
  {
    hide EncodeAll, Pow256;
    if a == [] {
      assert FoundersBytes(a) + x == x && FoundersBytes(b) + y == y;
    } else {
      var f, g := [Text(a[0])], [Text(b[0])];
      var r, s := FoundersBytes(a[1..]) + x, FoundersBytes(b[1..]) + y;
      assert EncodeAll(f) + r == FoundersBytes(a) + x && EncodeAll(g) + s == FoundersBytes(b) + y;
      FieldsSplit(f, g, r, s);
      assert f[0] == g[0];
      FoundersSplit(a[1..], b[1..], x, y);
      assert a == [a[0]] + a[1..] && b == [b[0]] + b[1..];
    }
  }

  lemma MiddleSplit(p: Params, x: bytes, p': Params, y: bytes)
    requires WfParams(p) && WfParams(p') && EncodeAll(Middle(p)) + x == EncodeAll(Middle(p')) + y
    ensures p.equihashN == p'.equihashN && p.equihashK == p'.equihashK && p.port == p'.port
      && p.pruneAfter == p'.pruneAfter
    ensures p.magic == p'.magic && p.foundersCount == p'.foundersCount && x == y
  {
    hide EncodeAll;
    var f, g := Middle(p), Middle(p');
    Pow256Values();
    FieldsSplit(f, g, x, y);
    assert f[0] == g[0] && f[1] == g[1] && f[2] == g[2] && f[3] == g[3] && f[4] == g[4] && f[5] == g[5];
  }

  lemma ClosingSplit(p: Params, x: bytes, p': Params, y: bytes)
    requires EncodeAll(Closing(p)) + x == EncodeAll(Closing(p')) + y
    ensures p.maxBlockSize == p'.maxBlockSize && p.maxTxSize == p'.maxTxSize && p.sigops == p'.sigops
    ensures p.maxTxBefore == p'.maxTxBefore && p.maturity == p'.maturity && p.minVersion == p'.minVersion
      && p.expiry == p'.expiry
    ensures x == y
  {
    hide EncodeAll;
    var f, g := Closing(p), Closing(p');
    Pow256Values();
    FieldsSplit(f, g, x, y);
    assert f[0] == g[0] && f[1] == g[1] && f[2] == g[2] && f[3] == g[3] && f[4] == g[4] && f[5] == g[5] && f[6] == g[6];
  }

  /** The preimage determines the configuration, every absorbed parameter and
      every row. */
  lemma PreimageInjective(c: Config, p: Params, rows: seq<Row>, c': Config, p': Params, rows': seq<Row>)
    requires Wf(c, p, rows) && Wf(c', p', rows') && Preimage(c, p, rows) == Preimage(c', p', rows')
    ensures c == c' && p == p' && rows == rows'
  {
    hide EncodeAll, Question, Rules, Work, Middle, Closing, UpgradesBytes, FoundersBytes, RowsBytes, WfRow, Pow256,
      ValidConfig;
    QuestionSplit(c, p, |rows|, EncodeAll(Rules(p)) + (EncodeAll(Work(p)) + AfterRules(p, rows)),
                  c', p', |rows'|, EncodeAll(Rules(p')) + (EncodeAll(Work(p')) + AfterRules(p', rows')));
    RulesSplit(p, EncodeAll(Work(p)) + AfterRules(p, rows), p', EncodeAll(Work(p')) + AfterRules(p', rows'));
    WorkSplit(p, AfterRules(p, rows), p', AfterRules(p', rows'));
    UpgradesSplit(p.upgrades, p'.upgrades,
                  EncodeAll(Middle(p)) + AfterCount(p, rows), EncodeAll(Middle(p')) + AfterCount(p', rows'));
    MiddleSplit(p, AfterCount(p, rows), p', AfterCount(p', rows'));
    FoundersSplit(p.founders, p'.founders,
                  EncodeAll(Closing(p)) + RowsBytes(rows), EncodeAll(Closing(p')) + RowsBytes(rows'));
    ClosingSplit(p, RowsBytes(rows), p', RowsBytes(rows'));
    RowsSplit(rows, rows');
  }

  /* ---- what a sweep detects ------------------------------------------------------------------- */

  /** The rows of a build whose rules evaluate height h to eval(h). */
  function RowsAt(eval: int -> Row, heights: seq<int>): (rows: seq<Row>)
    ensures |rows| == |heights|
    ensures forall i :: 0 <= i < |heights| ==> rows[i] == eval(heights[i])
  {
    seq(|heights|, i requires 0 <= i < |heights| => eval(heights[i]))
  }

  /** Two builds asked the same question get the same preimage exactly when their
      rows agree at every swept height. */
  lemma DetectsIff(c: Config, p: Params, heights: seq<int>, f: int -> Row, g: int -> Row)
    requires Wf(c, p, RowsAt(f, heights)) && Wf(c, p, RowsAt(g, heights))
    ensures Preimage(c, p, RowsAt(f, heights)) == Preimage(c, p, RowsAt(g, heights))
       <==> forall h :: h in heights ==> f(h) == g(h)
  {
    hide Preimage, Wf;
    var a, b := RowsAt(f, heights), RowsAt(g, heights);
    if Preimage(c, p, a) == Preimage(c, p, b) {
      PreimageInjective(c, p, a, c, p, b);
      forall h | h in heights ensures f(h) == g(h) {
        var i :| 0 <= i < |heights| && heights[i] == h;
        assert a[i] == b[i];
      }
    }
    if forall h :: h in heights ==> f(h) == g(h) {
      assert a == b;
    }
  }

  /** A rule changed from height x on, and nowhere below, is detected exactly if
      x is not above the largest swept height. */
  lemma GateDetectedIff(c: Config, p: Params, heights: seq<int>, f: int -> Row, g: int -> Row, x: int)
    requires Wf(c, p, RowsAt(f, heights)) && Wf(c, p, RowsAt(g, heights))
    requires heights != [] && Ascending(heights)
    requires forall h :: f(h) == g(h) <==> h < x
    ensures Preimage(c, p, RowsAt(f, heights)) != Preimage(c, p, RowsAt(g, heights)) <==> x <= heights[|heights| - 1]
  {
    hide Preimage, Wf;
    DetectsIff(c, p, heights, f, g);
    var last := heights[|heights| - 1];
    assert last in heights;
    forall h | h in heights ensures h <= last {
      var i :| 0 <= i < |heights| && heights[i] == h;
    }
  }

  /** The largest swept height reaches at least the band of the last stride point,
      and the top of the range exactly if the bands touch, the stride divides the
      horizon, or the top lies in a fixed family. */
  lemma LastSwept(c: Config, s: Schedule, heights: seq<int>)
    requires ValidConfig(c) && Ascending(heights) && forall h :: h in heights <==> Swept(h, c, s)
    ensures heights != []
    ensures MaxHeight(c) - c.horizon % c.stride <= heights[|heights| - 1] <= MaxHeight(c)
    ensures heights[|heights| - 1] == MaxHeight(c) <==> Reaches(c, s)
  {
    hide Swept, Fixed;
    var q := c.horizon / c.stride;
    assert c.horizon == q * c.stride + c.horizon % c.stride;
    var x := if Contiguous(c) then MaxHeight(c) else c.tip + q * c.stride + c.band;
    SweptReach(c, s, q);
    assert x in heights;
    var i :| 0 <= i < |heights| && heights[i] == x;
    var last := heights[|heights| - 1];
    assert last in heights;
    SweptRange(c, s, last);
    TopSweptIff(c, s);
    if Reaches(c, s) {
      assert MaxHeight(c) in heights;
      var j :| 0 <= j < |heights| && heights[j] == MaxHeight(c);
    }
  }

  /** A rule that changes at height x: the builds agree below it and nowhere else. */
  ghost predicate Gate(f: int -> Row, g: int -> Row, x: int) {
    && (forall h: int :: WfRow(f(h))) && (forall h: int :: WfRow(g(h)))
    && (forall h :: f(h) == g(h) <==> h < x)
  }

  ghost predicate EveryGateDetected(c: Config, p: Params, heights: seq<int>) {
    forall f: int -> Row, g: int -> Row, x :: Gate(f, g, x) && x <= MaxHeight(c) ==>
      Preimage(c, p, RowsAt(f, heights)) != Preimage(c, p, RowsAt(g, heights))
  }

  /** The promise that a rule changed from some height of the range on is always
      caught holds exactly if the top of the range is swept: a condition on the
      configuration and the compiled schedule alone. */
  lemma EveryGateDetectedIff(c: Config, p: Params, heights: seq<int>)
    requires ValidConfig(c) && WfParams(p) && |p.upgrades| == SLOTS
    requires Ascending(heights) && forall h :: h in heights <==> Swept(h, c, ScheduleOf(p))
    ensures EveryGateDetected(c, p, heights) <==> Reaches(c, ScheduleOf(p))
  {
    hide Preimage, WfParams, WfRow, Swept, Fixed, RowsAt;
    LastSwept(c, ScheduleOf(p), heights);
    var last := heights[|heights| - 1];
    RowsFit(c, p, heights);
    forall f: int -> Row, g: int -> Row, x | Gate(f, g, x)
      ensures Preimage(c, p, RowsAt(f, heights)) != Preimage(c, p, RowsAt(g, heights)) <==> x <= last
    {
      GateSeen(c, p, heights, f, g, x);
    }
    if last < MaxHeight(c) {
      var f, g := GateExists(last + 1);
      assert Gate(f, g, last + 1);
    }
  }

  lemma GateSeen(c: Config, p: Params, heights: seq<int>, f: int -> Row, g: int -> Row, x: int)
    requires ValidConfig(c) && WfParams(p) && |heights| < Pow256(8) && heights != [] && Ascending(heights)
      && Gate(f, g, x)
    ensures Preimage(c, p, RowsAt(f, heights)) != Preimage(c, p, RowsAt(g, heights)) <==> x <= heights[|heights| - 1]
  {
    hide Preimage, WfParams, ValidConfig;
    GateRows(f, g, x, heights);
    GateDetectedIff(c, p, heights, f, g, x);
  }

  lemma GateRows(f: int -> Row, g: int -> Row, x: int, heights: seq<int>)
    requires Gate(f, g, x)
    ensures forall i :: 0 <= i < |heights| ==> WfRow(RowsAt(f, heights)[i]) && WfRow(RowsAt(g, heights)[i])
  {
    hide WfRow;
    forall i | 0 <= i < |heights| ensures WfRow(RowsAt(f, heights)[i]) && WfRow(RowsAt(g, heights)[i]) {
      var h := heights[i];
      assert WfRow(f(h)) && WfRow(g(h));
    }
  }

  /** An int32 range holds fewer heights than the row count can say. */
  lemma RowsFit(c: Config, p: Params, heights: seq<int>)
    requires ValidConfig(c) && |p.upgrades| == SLOTS
    requires Ascending(heights) && forall h :: h in heights <==> Swept(h, c, ScheduleOf(p))
    ensures |heights| < Pow256(8)
  {
    hide Swept, Pow256;
    Pow256Values();
    forall i | 0 <= i < |heights| ensures 0 <= heights[i] <= MaxHeight(c) {
      assert heights[i] in heights;
      SweptRange(c, ScheduleOf(p), heights[i]);
    }
    AscendingAbove(heights);
  }

  lemma {:induction false} AscendingAbove(s: seq<int>)
    requires Ascending(s) && forall i :: 0 <= i < |s| ==> s[i] >= 0
    ensures s != [] ==> s[|s| - 1] >= |s| - 1
  {
    if |s| > 1 {
      var t := s[..|s| - 1];
      assert forall i :: 0 <= i < |t| ==> t[i] == s[i];
      AscendingAbove(t);
    }
  }

  /** A subsidy that changes at x. */
  lemma GateExists(x: int) returns (f: int -> Row, g: int -> Row)
    ensures Gate(f, g, x)
  {
    var none := seq(32, i => 0);
    var before := Row(0, 0, true, 0, 0, seq(SLOTS, i => false), seq(SLOTS, i => 0), 0, 0, 0, 0, none,
                      0, 0, 0, 0, 0, 0, none);
    var after := before.(subsidy := 1);
    f := h => before;
    g := h => if h < x then before else after;
    assert forall h :: f(h) == g(h) <==> h < x;
  }

  /** Whatever the compiled schedule, the default sweep keeps the promise. */
  lemma DefaultDetectsEveryGate(p: Params, heights: seq<int>)
    requires WfParams(p) && |p.upgrades| == SLOTS
    requires Ascending(heights) && forall h :: h in heights <==> Swept(h, DEFAULT_CONFIG, ScheduleOf(p))
    ensures EveryGateDetected(DEFAULT_CONFIG, p, heights)
  {
    hide Swept, WfParams, Fixed, EveryGateDetected;
    EveryGateDetectedIff(DEFAULT_CONFIG, p, heights);
  }

  /** With a horizon the stride does not divide it need not: on the main network
      a rule changed at 500 heights below the top goes unnoticed. */
  lemma MainGateMissed(p: Params, heights: seq<int>, f: int -> Row, g: int -> Row, x: int)
    requires WfParams(p) && |p.upgrades| == SLOTS && ScheduleOf(p) == MainSchedule()
    requires Ascending(heights) && forall h :: h in heights <==> Swept(h, Config(3108561, 1500, 1000, 4), ScheduleOf(p))
    requires Gate(f, g, x)
    ensures var c := Config(3108561, 1500, 1000, 4);
            Preimage(c, p, RowsAt(f, heights)) != Preimage(c, p, RowsAt(g, heights)) <==> x <= MaxHeight(c) - 500
  {
    hide Preimage, WfParams, WfRow, Swept, Fixed, RowsAt, MainSchedule, ScheduleOf, Gate;
    var c := Config(3108561, 1500, 1000, 4);
    GapAboveLastBand(0);
    LastSwept(c, ScheduleOf(p), heights);
    var last := heights[|heights| - 1];
    assert last in heights;
    GapAboveLastBand(last);
    assert 3109565 in heights;
    var i :| 0 <= i < |heights| && heights[i] == 3109565;
    RowsFit(c, p, heights);
    GateSeen(c, p, heights, f, g, x);
  }

  /** The same for digests, if the hash does not confuse the two preimages. */
  lemma DigestDetectsIff(h: Hash, c: Config, p: Params, heights: seq<int>, f: int -> Row, g: int -> Row)
    requires Wf(c, p, RowsAt(f, heights)) && Wf(c, p, RowsAt(g, heights))
    requires NoCollision(h, {Preimage(c, p, RowsAt(f, heights)), Preimage(c, p, RowsAt(g, heights))})
    ensures Sha3(h, Preimage(c, p, RowsAt(f, heights))) == Sha3(h, Preimage(c, p, RowsAt(g, heights)))
       <==> forall x :: x in heights ==> f(x) == g(x)
  {
    hide Preimage, Wf, NoCollision, Sha3, RowsAt;
    var a, b := Preimage(c, p, RowsAt(f, heights)), Preimage(c, p, RowsAt(g, heights));
    DetectsIff(c, p, heights, f, g);
    if Sha3(h, a) == Sha3(h, b) { NoCollisionElim(h, {a, b}, a, b); }
  }

  lemma SweptReach(c: Config, s: Schedule, q: nat)
    requires ValidConfig(c) && q * c.stride <= c.horizon
    ensures Swept(if Contiguous(c) then MaxHeight(c) else c.tip + q * c.stride + c.band, c, s)
  {
    hide Fixed;
    if !Contiguous(c) {
      assert q * c.stride >= 0;
      assert InBand(c.tip + q * c.stride + c.band, q * c.stride, c);
    }
  }

  /** The swept heights, on the compiled parameters. */
  ghost predicate SweptBy(x: int, c: Config, p: Params)
    requires |p.upgrades| == SLOTS
  {
    var top, shift := c.tip + c.horizon + c.band, Shift(p.slowStart);
    && 0 <= x <= top
    && (|| x <= 2000
        || (p.preHalving > 0 && ByBoundary(x, 0, p.preHalving, shift, top))
        || (p.postHalving > 0 && p.upgrades[6].activation >= 0
            && ByBoundary(x, p.upgrades[6].activation, p.postHalving, shift, top))
        || p.lastFounders - 1 <= x <= p.lastFounders + 1
        || (exists i :: 0 <= i < SLOTS && p.upgrades[i].activation != -1
                        && p.upgrades[i].activation - 1 <= x <= p.upgrades[i].activation + 1)
        || (if 2 * c.band + 1 >= c.stride then c.tip - c.band <= x else ByStride(x, c)))
  }

  lemma SweptByIs(x: int, c: Config, p: Params)
    requires |p.upgrades| == SLOTS
    ensures Swept(x, c, ScheduleOf(p)) <==> SweptBy(x, c, p)
  {
    hide ByBoundary, ByStride;
    var a := ScheduleOf(p).activations;
    assert forall i :: 0 <= i < SLOTS ==> a[i] == p.upgrades[i].activation;
    if i :| 0 <= i < SLOTS && p.upgrades[i].activation != -1
            && p.upgrades[i].activation - 1 <= x <= p.upgrades[i].activation + 1 {
      assert Near(x, a[i]);
    }
  }

  /** crs_run: the digest is the hash of the preimage of exactly the swept rows. */
  method Run(h: Hash, c: Config, p: Params, out: array<int>, eval: int -> Row)
    returns (status: Status, n: nat, digest: bytes)
    requires WfParams(p) && |p.upgrades| == SLOTS
    modifies out
    ensures status.BadConfig? <==> !ValidConfig(c)
    ensures ValidConfig(c) ==> (status.Capacity? <==> |Emitted(c, ScheduleOf(p))| > out.Length)
    ensures status.Ok? ==>
              && n <= out.Length && Ascending(out[..n])
              && (forall x :: x in out[..n] <==> SweptBy(x, c, p))
              && digest == Sha3(h, Preimage(c, p, RowsAt(eval, out[..n])))
  {
    hide Swept, SweptBy, Ascending, HeaderBytes, RowsBytes, Preimage, Sha3, WfParams, ValidConfig, Emitted;
    digest := [];
    status, n := BuildVector(c, ScheduleOf(p), out);
    forall x ensures Swept(x, c, ScheduleOf(p)) <==> SweptBy(x, c, p) { SweptByIs(x, c, p); }
    if status != Ok { return; }
    var ctx := AbsorbHeader(c, p, n);
    HeaderThenRows(c, p, RowsAt(eval, out[..n]), ctx);
    ctx := AbsorbRows(ctx, out[..n], eval);
    digest := Sha3(h, ctx);
  }

  /** The loop of crs_run over the swept heights. */
  method AbsorbRows(head: bytes, heights: seq<int>, eval: int -> Row) returns (ctx: bytes)
    ensures ctx == head + RowsBytes(RowsAt(eval, heights))
  {
    hide RowFields, EncodeAll, RowsBytes;
    ghost var rows := RowsAt(eval, heights);
    ctx := head;
    assert rows[..0] == [];
    RowsBytesEmpty();
    for i := 0 to |heights|
      invariant ctx == head + RowsBytes(rows[..i])
    {
      RowsBytesAppend(rows[..i], rows[i]);
      assert rows[..i + 1] == rows[..i] + [rows[i]];
      ctx := ctx + EncodeAll(RowFields(eval(heights[i])));
    }
    assert rows[..|heights|] == rows;
  }

  function ScheduleOf(p: Params): Schedule
    requires |p.upgrades| == SLOTS
  {
    Schedule(Shift(p.slowStart), p.preHalving, p.postHalving, p.upgrades[6].activation, p.lastFounders,
             seq(SLOTS, i requires 0 <= i < SLOTS => p.upgrades[i].activation))
  }

  /** crs_absorb_header */
  method AbsorbHeader(c: Config, p: Params, rows: nat) returns (ctx: bytes)
    ensures ctx == HeaderBytes(c, p, rows)
  {
    hide Question, Rules, Work, Middle, Closing, EncodeAll;
    ctx := EncodeAll(Question(c, p, rows)) + EncodeAll(Rules(p)) + EncodeAll(Work(p));
    ghost var start := ctx;
    assert p.upgrades[0..] == p.upgrades;
    for i := 0 to |p.upgrades|
      invariant ctx + UpgradesBytes(p.upgrades[i..]) == start + UpgradesBytes(p.upgrades)
    {
      assert p.upgrades[i..][1..] == p.upgrades[i + 1..];
      ctx := ctx + EncodeAll(UpgradeFields(p.upgrades[i]));
    }
    assert p.upgrades[|p.upgrades|..] == [] && ctx + [] == ctx;
    ctx := ctx + EncodeAll(Middle(p));
    start := ctx;
    assert p.founders[0..] == p.founders;
    for i := 0 to |p.founders|
      invariant ctx + FoundersBytes(p.founders[i..]) == start + FoundersBytes(p.founders)
    {
      assert p.founders[i..][1..] == p.founders[i + 1..];
      ctx := ctx + EncodeAll([Text(p.founders[i])]);
    }
    assert p.founders[|p.founders|..] == [] && ctx + [] == ctx;
    ctx := ctx + EncodeAll(Closing(p));
  }

  function HeaderBytes(c: Config, p: Params, rows: nat): bytes {
    EncodeAll(Question(c, p, rows)) + EncodeAll(Rules(p)) + EncodeAll(Work(p)) + UpgradesBytes(p.upgrades)
    + EncodeAll(Middle(p)) + FoundersBytes(p.founders) + EncodeAll(Closing(p))
  }

  lemma HeaderThenRows(c: Config, p: Params, rows: seq<Row>, head: bytes)
    requires head == HeaderBytes(c, p, |rows|)
    ensures head + RowsBytes(rows) == Preimage(c, p, rows)
  {
    hide Question, Rules, Work, Middle, Closing, EncodeAll, UpgradesBytes, FoundersBytes, RowsBytes;
    var q, r, w := EncodeAll(Question(c, p, |rows|)), EncodeAll(Rules(p)), EncodeAll(Work(p));
    var u := UpgradesBytes(p.upgrades);
    var m, f, k, x := EncodeAll(Middle(p)), FoundersBytes(p.founders), EncodeAll(Closing(p)), RowsBytes(rows);
    Assoc(q + r + w + u + m + f, k, x);
    Assoc(q + r + w + u + m, f, k + x);
    Assoc(q + r + w + u, m, f + (k + x));
    Assoc(q + r + w, u, m + (f + (k + x)));
    Assoc(q + r, w, u + (m + (f + (k + x))));
    Assoc(q, r, w + (u + (m + (f + (k + x)))));
  }

  lemma RowsBytesEmpty()
    ensures RowsBytes([]) == []
  {
  }

  lemma {:induction false} RowsBytesAppend(rows: seq<Row>, r: Row)
    ensures RowsBytes(rows + [r]) == RowsBytes(rows) + EncodeAll(RowFields(r))
  {
    hide RowFields, EncodeAll;
    if rows == [] {
      assert rows + [r] == [r] && [r][1..] == [];
      assert EncodeAll(RowFields(r)) + [] == EncodeAll(RowFields(r));
    } else {
      assert (rows + [r])[1..] == rows[1..] + [r];
      RowsBytesAppend(rows[1..], r);
    }
  }
}
