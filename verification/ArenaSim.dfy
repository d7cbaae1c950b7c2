/** The zdogfight match core as the arena tools see it: the control codec, the
    tick shell (what ends a match and what a tick counts), and the canonical
    state encoding. Flight and gunnery are a parameter of the model. */
module ArenaSim {
  import opened Bytes

  const TICK_LIMIT: nat := 36000
  const SCORE_LIMIT: nat := 10
  const MAX_PLANES: nat := 8
  const CTL_LEN: nat := 7
  const HEAD_LEN: nat := 19
  const WORLD_LEN: nat := 2144
  const STATE_LEN: nat := HEAD_LEN + WORLD_LEN

  /* ---- controls ------------------------------------------------------------ */

  type int16 = x: int | -0x8000 <= x < 0x8000

  datatype Ctl = Ctl(roll: int16, pitch: int16, throttle: int16, fire: byte)

  const NEUTRAL: Ctl := Ctl(0, 0, 0, 0)

  /** Two's complement, little-endian. */
  function PutI16(v: int16): (b: bytes)
    ensures |b| == 2
  {
    Le(v % 0x1_0000, 2)
  }

  function GetI16(b: bytes): int16
    requires |b| == 2
  {
    LeUnLe(b);
    Pow256Values();
    var u := UnLe(b);
    if u < 0x8000 then u else u - 0x1_0000
  }

  lemma GetPutI16(v: int16)
    ensures GetI16(PutI16(v)) == v
  {
    Pow256Values();
    UnLeLe(v % 0x1_0000, 2);
  }

  lemma PutGetI16(b: bytes)
    requires |b| == 2
    ensures PutI16(GetI16(b)) == b
  {
    Pow256Values();
    LeUnLe(b);
    assert GetI16(b) % 0x1_0000 == UnLe(b);
  }

  /** zdog_ctl_encode */
  function EncodeCtl(c: Ctl): (b: bytes)
    ensures |b| == CTL_LEN
  {
    PutI16(c.roll) + (PutI16(c.pitch) + (PutI16(c.throttle) + [c.fire]))
  }

  /** zdog_ctl_decode on a whole frame */
  function DecodeCtl(b: bytes): Ctl
    requires |b| == CTL_LEN
  {
    Ctl(GetI16(b[0..2]), GetI16(b[2..4]), GetI16(b[4..6]), b[6])
  }

  lemma DecodeEncodeCtl(c: Ctl)
    ensures DecodeCtl(EncodeCtl(c)) == c
  {
    hide PutI16, GetI16;
    var b := EncodeCtl(c);
    assert b[0..2] == PutI16(c.roll) && b[2..4] == PutI16(c.pitch) && b[4..6] == PutI16(c.throttle);
    GetPutI16(c.roll);
    GetPutI16(c.pitch);
    GetPutI16(c.throttle);
  }

  lemma EncodeDecodeCtl(b: bytes)
    requires |b| == CTL_LEN
    ensures EncodeCtl(DecodeCtl(b)) == b
  {
    hide PutI16, GetI16;
    PutGetI16(b[0..2]);
    PutGetI16(b[2..4]);
    PutGetI16(b[4..6]);
    assert b == b[0..2] + (b[2..4] + (b[4..6] + [b[6]]));
  }

  /* ---- the match ------------------------------------------------------------- */

  datatype Phase = Running | Done

  datatype Winner = Red | Blue | Draw

  /** Planes, shots and generator state are kept as their canonical encoding:
      four generator words, eight 32-byte planes, sixty-four 29-byte shots. */
  datatype Match = Match(tick: nat, planes: nat, phase: Phase, winner: Winner, red: nat, blue: nat, world: bytes)

  /** What one running tick does to the world: the new world and each team's
      kills. Any function will do. */
  datatype Physics = Physics(init: (nat, nat) -> bytes, step: (bytes, seq<Ctl>) -> (bytes, nat, nat))

  function Fit(b: bytes, n: nat): (r: bytes)
    ensures |r| == n
  {
    (b + seq(n, i => 0))[..n]
  }

  /** The alive byte of plane i: 27 bytes into its record. */
  predicate Alive(m: Match, i: nat) {
    var at := 32 + 32 * i + 27;
    i < MAX_PLANES && at < |m.world| && m.world[at] != 0
  }

  /** as_any_shot: an active byte, 28 bytes into a shot record, is set. */
  predicate AnyShot(m: Match) {
    exists i :: 0 <= i < 64 && 288 + 29 * i + 28 < |m.world| && m.world[288 + 29 * i + 28] != 0
  }

  /** zdog_match_init */
  function Init(ph: Physics, seed: nat, perTeam: nat): Match {
    Match(0, 2 * perTeam, Running, Draw, 0, 0, Fit(ph.init(seed, perTeam), WORLD_LEN))
  }

  /** zdog_tick: a no-op once done; otherwise planes and shots move, the tick
      counts, and the score or tick limit ends the match. */
  function Tick(ph: Physics, m: Match, ctls: seq<Ctl>): Match {
    if m.phase == Done then m
    else
      var (w, r, b) := ph.step(m.world, ctls);
      var red, blue, tick := m.red + r, m.blue + b, m.tick + 1;
      if red >= SCORE_LIMIT || blue >= SCORE_LIMIT || tick >= TICK_LIMIT then
        Match(tick, m.planes, Done, if red > blue then Red else if blue > red then Blue else Draw, red, blue,
              Fit(w, WORLD_LEN))
      else
        Match(tick, m.planes, Running, m.winner, red, blue, Fit(w, WORLD_LEN))
  }

  function PhaseByte(p: Phase): byte { if p == Running then 0 else 1 }

  function WinnerByte(w: Winner): byte {
    match w case Red => 0 case Blue => 1 case Draw => 2
  }

  /** zdog_state_encode: always exactly 2163 bytes. */
  function EncodeState(m: Match): (b: bytes)
    ensures |b| == STATE_LEN
  {
    Le(m.tick, 8) + [m.planes % 256, PhaseByte(m.phase), WinnerByte(m.winner)]
    + Le(m.red, 4) + Le(m.blue, 4) + Fit(m.world, WORLD_LEN)
  }

  /** The ranges of the match's C fields. */
  predicate InFields(m: Match) {
    m.tick < Pow256(8) && m.planes < 256 && m.red < Pow256(4) && m.blue < Pow256(4) && |m.world| == WORLD_LEN
  }

  /** Equal state bytes are equal states: comparing the trailing block compares the
      whole match. */
  lemma EncodeStateInjective(a: Match, b: Match)
    requires InFields(a) && InFields(b) && EncodeState(a) == EncodeState(b)
    ensures a == b
  {
    hide Le, Pow256;
    FitWhole(a.world);
    FitWhole(b.world);
    var ha: bytes := [a.planes % 256, PhaseByte(a.phase), WinnerByte(a.winner)];
    var hb: bytes := [b.planes % 256, PhaseByte(b.phase), WinnerByte(b.winner)];
    var ta, tb := Le(a.tick, 8), Le(b.tick, 8);
    var ra, rb, sa, sb := Le(a.red, 4), Le(b.red, 4), Le(a.blue, 4), Le(b.blue, 4);
    SplitAt(ta + ha + ra + sa, a.world, tb + hb + rb + sb, b.world);
    SplitAt(ta + ha + ra, sa, tb + hb + rb, sb);
    SplitAt(ta + ha, ra, tb + hb, rb);
    SplitAt(ta, ha, tb, hb);
    LeInjective(a.tick, b.tick, 8);
    LeInjective(a.red, b.red, 4);
    LeInjective(a.blue, b.blue, 4);
    assert ha[0] == hb[0] && ha[1] == hb[1] && ha[2] == hb[2];
  }

  /** Where each field of the state stands, and the values of phase and winner. */
  lemma StateFields(m: Match)
    requires InFields(m)
    ensures var b := EncodeState(m);
            && UnLe(b[..8]) == m.tick && b[8] == m.planes && b[9] == (if m.phase == Done then 1 else 0)
            && (b[10] == 0 <==> m.winner == Red) && (b[10] == 1 <==> m.winner == Blue) && b[10] <= 2
            && UnLe(b[11..15]) == m.red && UnLe(b[15..19]) == m.blue && b[19..] == m.world
  {
    hide Le, UnLe, Pow256;
    FitWhole(m.world);
    UnLeLe(m.tick, 8);
    UnLeLe(m.red, 4);
    UnLeLe(m.blue, 4);
    var h: bytes := [m.planes % 256, PhaseByte(m.phase), WinnerByte(m.winner)];
    var b := EncodeState(m);
    var t, r, l := Le(m.tick, 8), Le(m.red, 4), Le(m.blue, 4);
    assert b == t + h + r + l + m.world;
    assert b[..8] == t && b[8] == h[0] && b[9] == h[1] && b[10] == h[2];
    assert b[11..15] == r && b[15..19] == l && b[19..] == m.world;
  }

  lemma FitWhole(w: bytes)
    requires |w| == WORLD_LEN
    ensures Fit(w, WORLD_LEN) == w
  {
  }

  /** zdog_state_checksum: FNV-1a over the state encoding. */
  function Fnv(b: bytes, hash: nat): nat
    decreases |b|
  {
    if b == [] then hash
    else Fnv(b[1..], Xor8(hash, b[0]) * 1099511628211 % 0x1_0000_0000_0000_0000)
  }

  /** Exclusive or of the low n bits. */
  function Xor(a: nat, b: nat, n: nat): nat {
    if n == 0 then 0 else (a + b) % 2 + 2 * Xor(a / 2, b / 2, n - 1)
  }

  function Xor8(hash: nat, x: byte): nat {
    hash / 256 * 256 + Xor(hash % 256, x, 8)
  }

  function Checksum(m: Match): nat {
    Fnv(EncodeState(m), 14695981039346656037)
  }

  /* ---- runs -------------------------------------------------------------------- */

  /** A running match is below the tick and score limits. */
  predicate Live(m: Match) {
    m.phase == Running ==> m.tick < TICK_LIMIT && m.red < SCORE_LIMIT && m.blue < SCORE_LIMIT
  }

  /** The state after applying the frames one by one. */
  function Play(ph: Physics, m: Match, frames: seq<seq<Ctl>>): Match {
    if frames == [] then m else Tick(ph, Play(ph, m, frames[..|frames| - 1]), frames[|frames| - 1])
  }

  lemma PlayAppend(ph: Physics, m: Match, frames: seq<seq<Ctl>>, f: seq<Ctl>)
    ensures Play(ph, m, frames + [f]) == Tick(ph, Play(ph, m, frames), f)
  {
    assert (frames + [f])[..|frames|] == frames;
  }

  /** A running tick counts one and never takes a kill away. */
  lemma TickRunning(ph: Physics, m: Match, f: seq<Ctl>)
    requires m.phase == Running && Live(m)
    ensures var e := Tick(ph, m, f);
            e.tick == m.tick + 1 && Live(e) && e.planes == m.planes && e.red >= m.red && e.blue >= m.blue
  {
    hide Fit;
    var (w, r, b) := ph.step(m.world, f);
    assert r >= 0 && b >= 0;
  }

  lemma {:induction false} PlayDone(ph: Physics, m: Match, frames: seq<seq<Ctl>>)
    requires m.phase == Done
    ensures Play(ph, m, frames) == m
    decreases |frames|
  {
    if frames != [] { PlayDone(ph, m, frames[..|frames| - 1]); }
  }

  lemma {:induction false} PlaySplit(ph: Physics, m: Match, a: seq<seq<Ctl>>, b: seq<seq<Ctl>>)
    ensures Play(ph, m, a + b) == Play(ph, Play(ph, m, a), b)
    decreases |b|
  {
    if b == [] {
      assert a + b == a;
    } else {
      var c := b[..|b| - 1];
      assert (a + b)[..|a + b| - 1] == a + c;
      PlaySplit(ph, m, a, c);
    }
  }

  /** Until the match is done every frame counts one tick; then none does. */
  lemma {:induction false} PlayTicks(ph: Physics, m: Match, frames: seq<seq<Ctl>>)
    requires m.phase == Running && Live(m)
    ensures var e := Play(ph, m, frames);
            && Live(e) && e.planes == m.planes
            && m.tick <= e.tick <= m.tick + |frames|
            && (e.phase == Running ==> e.tick == m.tick + |frames|)
    decreases |frames|
  {
    hide Fit;
    if frames != [] { PlayTicks(ph, m, frames[..|frames| - 1]); }
  }

  /** The frames of a whole match: done exactly at the last one. */
  ghost predicate Complete(ph: Physics, seed: nat, perTeam: nat, frames: seq<seq<Ctl>>) {
    && Play(ph, Init(ph, seed, perTeam), frames).phase == Done
    && Play(ph, Init(ph, seed, perTeam), frames).tick == |frames|
  }

  /** Before the last frame of a complete match the match is still running. */
  lemma CompletePrefixRunning(ph: Physics, seed: nat, perTeam: nat, frames: seq<seq<Ctl>>, k: nat)
    requires Complete(ph, seed, perTeam, frames) && k < |frames|
    ensures Play(ph, Init(ph, seed, perTeam), frames[..k]).phase == Running
    ensures Play(ph, Init(ph, seed, perTeam), frames[..k]).tick == k
  {
    var m := Init(ph, seed, perTeam);
    var e := Play(ph, m, frames[..k]);
    PlaySplit(ph, m, frames[..k], frames[k..]);
    assert frames[..k] + frames[k..] == frames;
    PlayTicks(ph, m, frames[..k]);
    if e.phase == Done { PlayDone(ph, e, frames[k..]); }
  }

  /** No complete match is a proper prefix of another. */
  lemma CompletePrefixFree(ph: Physics, seed: nat, perTeam: nat, f: seq<seq<Ctl>>, g: seq<seq<Ctl>>)
    requires Complete(ph, seed, perTeam, f) && Complete(ph, seed, perTeam, g) && f <= g
    ensures f == g
  {
    assert g[..|f|] == f;
    if |f| < |g| {
      CompletePrefixRunning(ph, seed, perTeam, g, |f|);
    }
  }

  /** A complete match has at least one and at most 36000 frames. */
  lemma CompleteLength(ph: Physics, seed: nat, perTeam: nat, frames: seq<seq<Ctl>>)
    requires Complete(ph, seed, perTeam, frames)
    ensures 0 < |frames| <= TICK_LIMIT
  {
    var m := Init(ph, seed, perTeam);
    if |frames| > 0 {
      CompletePrefixRunning(ph, seed, perTeam, frames, |frames| - 1);
      PlayTicks(ph, m, frames[..|frames| - 1]);
    }
  }

  /** A complete match ends on the first tick that reaches a limit, and is won by
      the higher score. */
  lemma MatchOutcome(ph: Physics, seed: nat, perTeam: nat, frames: seq<seq<Ctl>>)
    requires Complete(ph, seed, perTeam, frames)
    ensures var e := Play(ph, Init(ph, seed, perTeam), frames);
            && (e.red >= SCORE_LIMIT || e.blue >= SCORE_LIMIT || e.tick == TICK_LIMIT)
            && (e.winner == Red <==> e.red > e.blue) && (e.winner == Blue <==> e.blue > e.red)
    ensures forall k :: 0 <= k < |frames| ==>
              var m := Play(ph, Init(ph, seed, perTeam), frames[..k]);
              m.red < SCORE_LIMIT && m.blue < SCORE_LIMIT && m.tick == k
  {
    hide Play, Fit;
    var m0 := Init(ph, seed, perTeam);
    CompleteLength(ph, seed, perTeam, frames);
    forall k | 0 <= k < |frames|
      ensures var m := Play(ph, m0, frames[..k]);
              m.phase == Running && m.red < SCORE_LIMIT && m.blue < SCORE_LIMIT && m.tick == k < TICK_LIMIT
    {
      CompletePrefixRunning(ph, seed, perTeam, frames, k);
      PlayTicks(ph, m0, frames[..k]);
    }
    var n := |frames| - 1;
    assert frames[..n] + [frames[n]] == frames;
    PlayAppend(ph, m0, frames[..n], frames[n]);
  }
}
