/** The two programs of arena_runner as they run: a match recorded into a bounded
    buffer, and the verifier that walks a file's frames. */
module ArenaRun {
  import opened Bytes
  import opened Wrappers
  import opened ArenaSim
  import opened ArenaReplay
  import opened ArenaRunner

  /* ---- the match ---------------------------------------------------------------- */

  class Pilot {
    const answers: Answers
    var dead: bool
    var deadTick: nat

    constructor (answers: Answers)
      ensures this.answers == answers && !dead
    {
      this.answers := answers;
      dead, deadTick := false, 0;
    }
  }

  /** ar_gather_team_ctls: the pilot is asked plane by plane and may die halfway;
      the team's controls come out as if the death had been known all along. */
  method GatherTeam(m: Match, p: Pilot, first: nat, perTeam: nat, ctls: array<Ctl>)
    requires first + perTeam <= ctls.Length
    modifies p, ctls
    ensures forall i :: first <= i < first + perTeam ==>
              ctls[i] == TeamCtl(m, p.answers, old(p.dead), first, perTeam, i)
    ensures forall i :: 0 <= i < ctls.Length && !(first <= i < first + perTeam) ==> ctls[i] == old(ctls[i])
    ensures p.dead == (old(p.dead) || TeamFails(m, p.answers, first, perTeam))
    ensures p.deadTick == if p.dead && !old(p.dead) then m.tick else old(p.deadTick)
  {
    hide Alive, DecodeCtl;
    for i := first to first + perTeam
      invariant p.dead == old(p.dead) && p.deadTick == old(p.deadTick)
      invariant forall k :: first <= k < i && !p.dead && Alive(m, k) ==> !BadAnswer(p.answers(m.tick, k))
      invariant forall k :: first <= k < i && (p.dead || !Alive(m, k)) ==> ctls[k] == NEUTRAL
      invariant forall k :: first <= k < i && !p.dead && Alive(m, k) ==>
        ctls[k] == DecodeCtl(p.answers(m.tick, k).value)
      invariant forall k :: 0 <= k < ctls.Length && !(first <= k < first + perTeam) ==> ctls[k] == old(ctls[k])
    {
      if !Alive(m, i) || p.dead {
        ctls[i] := NEUTRAL;
      } else {
        var answer := p.answers(m.tick, i);
        if BadAnswer(answer) {
          p.dead, p.deadTick := true, m.tick;
          for k := first to first + perTeam
            modifies ctls
            invariant forall j :: first <= j < k ==> ctls[j] == NEUTRAL
            invariant forall k :: 0 <= k < ctls.Length && !(first <= k < first + perTeam) ==> ctls[k] == old(ctls[k])
          {
            ctls[k] := NEUTRAL;
          }
          assert TeamFails(m, p.answers, first, perTeam);
          return;
        }
        ctls[i] := DecodeCtl(answer.value);
      }
    }
  }

  /** ar_gather_tick before the step: red first, then blue. */
  method GatherTick(m: Match, red: Pilot, blue: Pilot, perTeam: nat, ctls: array<Ctl>, ghost log: Log)
    requires red != blue && 2 * perTeam <= ctls.Length
    requires log.redDead == red.dead && log.blueDead == blue.dead
    modifies red, blue, ctls
    ensures ctls[..2 * perTeam] == NextFrame(m, Pilots(red.answers, blue.answers), log, perTeam)
    ensures var next := NextLog(m, Pilots(red.answers, blue.answers), log, perTeam);
            red.dead == next.redDead && blue.dead == next.blueDead
    ensures (old(red.dead) ==> red.dead) && (old(blue.dead) ==> blue.dead)
    ensures red.deadTick == if red.dead && !old(red.dead) then m.tick else old(red.deadTick)
    ensures blue.deadTick == if blue.dead && !old(blue.dead) then m.tick else old(blue.deadTick)
  {
    hide TeamFails, TeamCtl, NextFrame;
    for i := 0 to 2 * perTeam
      modifies ctls
    {
      ctls[i] := NEUTRAL;
    }
    GatherTeam(m, red, 0, perTeam, ctls);
    GatherTeam(m, blue, perTeam, perTeam, ctls);
  }

  /** zdog_ctl_encode at an offset of the replay buffer. */
  method PutCtl(c: Ctl, replay: array<byte>, at: nat)
    requires at + CTL_LEN <= replay.Length
    modifies replay
    ensures replay[..at + CTL_LEN] == old(replay[..at]) + EncodeCtl(c)
  {
    hide PutI16;
    var b := EncodeCtl(c);
    for k := 0 to CTL_LEN
      invariant replay[..at] == old(replay[..at])
      invariant replay[at..at + k] == b[..k]
    {
      replay[at + k] := b[k];
    }
    assert replay[..at + CTL_LEN] == replay[..at] + replay[at..at + CTL_LEN];
  }

  /** ar_append_tick_frames: all of a tick's frames, or none when the tick and a
      final state would not both fit. */
  method AppendTickFrames(replay: array<byte>, len: nat, ctls: array<Ctl>, num: nat) returns (fits: bool, newLen: nat)
    requires num <= ctls.Length && len <= replay.Length == MAX_REPLAY
    modifies replay
    ensures fits == (len + CTL_LEN * num + STATE_LEN <= MAX_REPLAY)
    ensures newLen == (if fits then len + CTL_LEN * num else len)
    ensures newLen <= replay.Length && (fits ==> newLen + STATE_LEN <= replay.Length)
    ensures replay[..newLen] == old(replay[..len]) + (if fits then EncodeFrame(ctls[..num]) else [])
  {
    hide EncodeCtl;
    if len + CTL_LEN * num + STATE_LEN > MAX_REPLAY { return false, len; }
    newLen := len;
    for i := 0 to num
      invariant newLen == len + CTL_LEN * i
      invariant replay[..newLen] == old(replay[..len]) + EncodeFrame(ctls[..i])
    {
      PutCtl(ctls[i], replay, newLen);
      newLen := newLen + CTL_LEN;
      assert ctls[..i + 1][..i] == ctls[..i];
    }
    fits := true;
  }

  /** ar_replay_header */
  method PutHeader(replay: array<byte>, seed: nat, perTeam: byte) returns (len: nat)
    requires replay.Length == MAX_REPLAY
    modifies replay
    ensures len == HEADER_LEN && replay[..len] == Header(seed, perTeam)
  {
    hide Header;
    var header := Header(seed, perTeam);
    for k := 0 to HEADER_LEN
      invariant replay[..k] == header[..k]
    {
      replay[k] := header[k];
    }
    len := HEADER_LEN;
  }

  /** The whole match fits the buffer. */
  lemma {:induction false} RegionFits(n: nat, num: nat)
    requires n <= TICK_LIMIT && num <= MAX_PLANES
    ensures Region(n, num) <= n * (CTL_LEN * MAX_PLANES)
    ensures HEADER_LEN + Region(n, num) + STATE_LEN <= MAX_REPLAY
  {
    if n > 0 { RegionFits(n - 1, num); }
  }

  datatype Run = Run(replay: bytes, roots: Roots, final: Match, redDied: Option<nat>, blueDied: Option<nat>)

  /** A pilot is reported dead exactly if it died, at the turn its death entered
      the log. */
  ghost predicate DeathReport(ph: Physics, seed: nat, perTeam: nat, p: Pilots, red: Option<nat>, blue: Option<nat>,
                              n: nat) {
    && red.Some? == LogAt(ph, seed, perTeam, p, n).redDead
    && blue.Some? == LogAt(ph, seed, perTeam, p, n).blueDead
    && (red.Some? ==>
      red.value < n && !LogAt(ph, seed, perTeam, p, red.value).redDead
        && LogAt(ph, seed, perTeam, p, red.value + 1).redDead)
    && (blue.Some? ==>
      blue.value < n && !LogAt(ph, seed, perTeam, p, blue.value).blueDead
        && LogAt(ph, seed, perTeam, p, blue.value + 1).blueDead)
  }

  /** Loop state of the match after n turns. */
  ghost predicate Recorded(h: Hash, ph: Physics, seed: nat, perTeam: byte, p: Pilots, n: nat,
                           m: Match, chain: bytes, replay: bytes)
  {
    var frames := LogAt(ph, seed, perTeam, p, n).frames;
    && n <= TICK_LIMIT
    && m == Play(ph, Init(ph, seed, perTeam), frames)
    && chain == Chain(h, ph, seed, perTeam, frames)
    && replay == Header(seed, perTeam) + EncodeFrames(frames)
  }

  lemma RecordedStart(h: Hash, ph: Physics, seed: nat, perTeam: byte, p: Pilots)
    ensures Recorded(h, ph, seed, perTeam, p, 0, Init(ph, seed, perTeam), ChainInit(h, seed, perTeam),
                     Header(seed, perTeam))
  {
    hide Header, Init, ChainInit;
    assert Header(seed, perTeam) + [] == Header(seed, perTeam);
  }

  lemma RecordedStep(h: Hash, ph: Physics, seed: nat, perTeam: byte, p: Pilots, n: nat,
                     m: Match, chain: bytes, replay: bytes, f: seq<Ctl>)
    requires Recorded(h, ph, seed, perTeam, p, n, m, chain, replay) && m.phase == Running
    requires f == NextFrame(m, p, LogAt(ph, seed, perTeam, p, n), perTeam)
    ensures m.tick == n < TICK_LIMIT && |replay| == HEADER_LEN + Region(n, 2 * perTeam)
    ensures LogAt(ph, seed, perTeam, p, n + 1) == NextLog(m, p, LogAt(ph, seed, perTeam, p, n), perTeam)
    ensures var e := Tick(ph, m, f);
            Recorded(h, ph, seed, perTeam, p, n + 1, e, ChainFold(h, chain, e), replay + EncodeFrame(f))
  {
    hide *;
    var log := LogAt(ph, seed, perTeam, p, n);
    RecordedElim(h, ph, seed, perTeam, p, n, m, chain, replay);
    LogProgress(ph, seed, perTeam, p, n);
    LogStep(ph, seed, perTeam, p, n, log, m);
    assert m.tick == n < TICK_LIMIT by { assert Live(m); LiveElim(m); }
    DecodeEncodeFrames(log.frames, 2 * perTeam);
    PlayAppend(ph, Init(ph, seed, perTeam), log.frames, f);
    ChainAppend(h, ph, seed, perTeam, log.frames, f);
    EncodeFramesAppend(log.frames, f);
    var e := Tick(ph, m, f);
    assert replay + EncodeFrame(f) == Header(seed, perTeam) + (EncodeFrames(log.frames) + EncodeFrame(f));
    RecordedIntro(h, ph, seed, perTeam, p, n + 1, log.frames + [f], e, ChainFold(h, chain, e), replay + EncodeFrame(f));
  }

  lemma LiveElim(m: Match)
    requires Live(m) && m.phase == Running
    ensures m.tick < TICK_LIMIT
  {
  }

  lemma LogStep(ph: Physics, seed: nat, perTeam: nat, p: Pilots, n: nat, log: Log, m: Match)
    requires log == LogAt(ph, seed, perTeam, p, n) && m == Play(ph, Init(ph, seed, perTeam), log.frames)
      && m.phase == Running
    ensures LogAt(ph, seed, perTeam, p, n + 1) == NextLog(m, p, log, perTeam)
    ensures NextLog(m, p, log, perTeam).frames == log.frames + [NextFrame(m, p, log, perTeam)]
  {
    hide Init, Play, NextFrame, TeamFails;
  }

  lemma ChainAppend(h: Hash, ph: Physics, seed: nat, perTeam: byte, frames: seq<seq<Ctl>>, f: seq<Ctl>)
    ensures Chain(h, ph, seed, perTeam, frames + [f])
         == ChainFold(h, Chain(h, ph, seed, perTeam, frames), Play(ph, Init(ph, seed, perTeam), frames + [f]))
  {
    hide ChainFold, ChainInit, Play, Init;
    assert (frames + [f])[..|frames|] == frames;
  }

  lemma EncodeFramesAppend(frames: seq<seq<Ctl>>, f: seq<Ctl>)
    ensures EncodeFrames(frames + [f]) == EncodeFrames(frames) + EncodeFrame(f)
  {
    hide EncodeFrame;
    assert (frames + [f])[..|frames|] == frames;
  }

  lemma RecordedElim(h: Hash, ph: Physics, seed: nat, perTeam: byte, p: Pilots, n: nat, m: Match, chain: bytes,
                     replay: bytes)
    requires Recorded(h, ph, seed, perTeam, p, n, m, chain, replay)
    ensures var frames := LogAt(ph, seed, perTeam, p, n).frames;
            && m == Play(ph, Init(ph, seed, perTeam), frames)
            && chain == Chain(h, ph, seed, perTeam, frames)
            && replay == Header(seed, perTeam) + EncodeFrames(frames)
            && |replay| == HEADER_LEN + |EncodeFrames(frames)|
  {
    hide LogAt, Play, Init, Chain, Header, EncodeFrames;
  }

  lemma RecordedIntro(h: Hash, ph: Physics, seed: nat, perTeam: byte, p: Pilots, n: nat, frames: seq<seq<Ctl>>,
                      m: Match, chain: bytes, replay: bytes)
    requires frames == LogAt(ph, seed, perTeam, p, n).frames && n <= TICK_LIMIT
    requires m == Play(ph, Init(ph, seed, perTeam), frames)
    requires chain == Chain(h, ph, seed, perTeam, frames)
    requires replay == Header(seed, perTeam) + EncodeFrames(frames)
    ensures Recorded(h, ph, seed, perTeam, p, n, m, chain, replay)
  {
    hide LogAt, Play, Init, Chain, Header, EncodeFrames;
  }

  lemma RecordedEnd(h: Hash, ph: Physics, seed: nat, perTeam: byte, p: Pilots, n: nat, m: Match, chain: bytes,
                    replay: bytes)
    requires Recorded(h, ph, seed, perTeam, p, n, m, chain, replay) && m.phase == Done
    ensures var frames := MatchFrames(ph, seed, perTeam, p);
            && LogAt(ph, seed, perTeam, p, n) == LogAt(ph, seed, perTeam, p, TICK_LIMIT)
            && m == Play(ph, Init(ph, seed, perTeam), frames)
            && replay + EncodeState(m) == ReplayBytes(ph, seed, perTeam, frames)
            && chain == Chain(h, ph, seed, perTeam, frames)
            && |replay| == HEADER_LEN + Region(|frames|, 2 * perTeam) && |frames| <= TICK_LIMIT
  {
    hide Header, Init, Chain, EncodeState, Play, NextFrame, TeamFails, LogAt, EncodeFrames;
    LogStops(ph, seed, perTeam, p, n, TICK_LIMIT);
    var frames := MatchFrames(ph, seed, perTeam, p);
    LogProgress(ph, seed, perTeam, p, n);
    CompleteLength(ph, seed, perTeam, frames);
    DecodeEncodeFrames(frames, 2 * perTeam);
    assert Header(seed, perTeam) + EncodeFrames(frames) + EncodeState(m)
        == Header(seed, perTeam) + (EncodeFrames(frames) + EncodeState(m));
  }

  /** ar_run_match without processes and files. Whatever the pilots answer, the
      buffer is never exceeded, the recorded bytes are the canonical replay of
      the match the pilots played, and the printed roots are its roots. */
  method RunMatch(h: Hash, ph: Physics, seed: nat, perTeam: byte, p: Pilots) returns (r: Option<Run>)
    requires seed < Pow256(8) && 1 <= perTeam <= 4
    ensures r.Some?
    ensures var frames := MatchFrames(ph, seed, perTeam, p);
            && ReplayOf(ph, r.value.replay, seed, perTeam, frames)
            && r.value.roots == RootsOf(h, ph, seed, perTeam, frames)
            && r.value.final == Play(ph, Init(ph, seed, perTeam), frames)
    ensures DeathReport(ph, seed, perTeam, p, r.value.redDied, r.value.blueDied, TICK_LIMIT)
  {
    hide Header, Init, Chain, ChainInit, ChainFold, EncodeFrame, EncodeFrames, EncodeState, Play, Tick, NextFrame,
      TeamFails, TeamCtl, LogAt, NextLog, Recorded, DeathReport, Pow256, Complete;
    var replay := new byte[MAX_REPLAY];
    var len: nat := PutHeader(replay, seed, perTeam);
    var m := Init(ph, seed, perTeam);
    var num := 2 * perTeam;
    var red := new Pilot(p.red);
    var blue := new Pilot(p.blue);
    var chain := ChainInit(h, seed, perTeam);
    var ctls := new Ctl[MAX_PLANES](i => NEUTRAL);
    ghost var n := 0;
    RecordedStart(h, ph, seed, perTeam, p);
    DeathStart(ph, seed, perTeam, p);
    while m.phase == Running
      invariant len + STATE_LEN <= MAX_REPLAY && n <= TICK_LIMIT
      invariant Recorded(h, ph, seed, perTeam, p, n, m, chain, replay[..len])
      invariant DeathReport(ph, seed, perTeam, p, Died(red.dead, red.deadTick), Died(blue.dead, blue.deadTick), n)
      decreases TICK_LIMIT - n
    {
      ghost var before, was := replay[..len], LogAt(ph, seed, perTeam, p, n);
      ghost var f := NextFrame(m, p, was, perTeam);
      RecordedStep(h, ph, seed, perTeam, p, n, m, chain, before, f);
      ghost var redDied, blueDied := Died(red.dead, red.deadTick), Died(blue.dead, blue.deadTick);
      DeathFlags(ph, seed, perTeam, p, redDied, blueDied, n);
      GatherTick(m, red, blue, perTeam, ctls, was);
      DeathStep(ph, seed, perTeam, p, redDied, blueDied, n,
                Died(red.dead, red.deadTick), Died(blue.dead, blue.deadTick));
      m := Tick(ph, m, ctls[..num]);
      RegionFits(n + 1, num);
      var fits;
      fits, len := AppendTickFrames(replay, len, ctls, num);
      if !fits { return None; }
      chain := ChainFold(h, chain, m);
      n := n + 1;
    }
    RecordedEnd(h, ph, seed, perTeam, p, n, m, chain, replay[..len]);
    MatchCompletes(ph, seed, perTeam, p);
    var bytes := replay[..len] + EncodeState(m);
    r := Some(Run(bytes, Roots(Sha3(h, bytes), Sha3(h, EncodeState(m)), chain), m,
                  Died(red.dead, red.deadTick), Died(blue.dead, blue.deadTick)));
    DeathEnd(ph, seed, perTeam, p, r.value.redDied, r.value.blueDied, n);
  }

  function Died(dead: bool, tick: nat): Option<nat> {
    if dead then Some(tick) else None
  }

  lemma DeathStart(ph: Physics, seed: nat, perTeam: nat, p: Pilots)
    ensures DeathReport(ph, seed, perTeam, p, None, None, 0)
  {
  }

  lemma DeathFlags(ph: Physics, seed: nat, perTeam: nat, p: Pilots, red: Option<nat>, blue: Option<nat>, n: nat)
    requires DeathReport(ph, seed, perTeam, p, red, blue, n)
    ensures red.Some? == LogAt(ph, seed, perTeam, p, n).redDead
    ensures blue.Some? == LogAt(ph, seed, perTeam, p, n).blueDead
  {
    hide LogAt;
  }

  lemma DeathStep(ph: Physics, seed: nat, perTeam: nat, p: Pilots, red: Option<nat>, blue: Option<nat>, n: nat,
                  red': Option<nat>, blue': Option<nat>)
    requires DeathReport(ph, seed, perTeam, p, red, blue, n)
    requires var next := LogAt(ph, seed, perTeam, p, n + 1);
             && red' == (if red.None? && next.redDead then Some(n) else red)
             && blue' == (if blue.None? && next.blueDead then Some(n) else blue)
    ensures DeathReport(ph, seed, perTeam, p, red', blue', n + 1)
  {
    hide LogAt;
    LogPrefix(ph, seed, perTeam, p, n, n + 1);
  }

  lemma DeathEnd(ph: Physics, seed: nat, perTeam: nat, p: Pilots, red: Option<nat>, blue: Option<nat>, n: nat)
    requires DeathReport(ph, seed, perTeam, p, red, blue, n) && n <= TICK_LIMIT
    requires LogAt(ph, seed, perTeam, p, n) == LogAt(ph, seed, perTeam, p, TICK_LIMIT)
    ensures DeathReport(ph, seed, perTeam, p, red, blue, TICK_LIMIT)
  {
    hide LogAt;
  }

  /* ---- the verifier ---------------------------------------------------------------- */

  /** What --expect-replay-root asks for. */
  datatype Wanted = Anything | Malformed | Root(root: bytes)

  datatype Verdict =
    | Accepted(seed: nat, perTeam: byte, ticks: nat, roots: Roots)
    | Mismatch(what: string)
    | BadWanted

  /** The header fields and size of a file that holds n ticks of frames. */
  ghost predicate Framed(b: bytes, n: nat) {
    && |b| >= HEADER_LEN + STATE_LEN
    && b[..8] == Magic() && UnLe(b[8..12]) == 1 && 1 <= b[20] <= 4
    && |b| == HEADER_LEN + Region(n, 2 * b[20]) + STATE_LEN
  }

  ghost function FramesIn(b: bytes, n: nat): (frames: seq<seq<Ctl>>)
    requires Framed(b, n)
  {
    var num := 2 * b[20];
    DecodeFrames(b[HEADER_LEN..HEADER_LEN + Region(n, num)], num, n)
  }

  /** A replay decodes to its own seed, planes and frames. */
  lemma ReplayElim(ph: Physics, b: bytes, seed: nat, perTeam: byte, frames: seq<seq<Ctl>>)
    requires ReplayOf(ph, b, seed, perTeam, frames)
    ensures Framed(b, |frames|) && |b| <= MAX_REPLAY
    ensures UnLe(b[12..20]) == seed && b[20] == perTeam
    ensures FramesIn(b, |frames|) == frames
    ensures b[|b| - STATE_LEN..] == EncodeState(Play(ph, Init(ph, seed, perTeam), frames))
  {
    hide Header, EncodeFrames, DecodeFrames, EncodeState, Play, Init, Complete, Pow256, UnLe, Le, Region;
    var num, body, tail := 2 * perTeam, EncodeFrames(frames), EncodeState(Play(ph, Init(ph, seed, perTeam), frames));
    HeaderFields(seed, perTeam, body + tail);
    DecodeEncodeFrames(frames, num);
    CompleteLength(ph, seed, perTeam, frames);
    RegionFits(|frames|, num);
    assert b[HEADER_LEN..] == body + tail;
    assert b[HEADER_LEN..HEADER_LEN + Region(|frames|, num)] == body;
    assert b[|b| - STATE_LEN..] == tail;
  }

  /** Conversely, bytes that pass the checks are the replay of what they decode to. */
  lemma ReplayIntro(ph: Physics, b: bytes, n: nat)
    requires Framed(b, n)
    requires var m := Play(ph, Init(ph, UnLe(b[12..20]), b[20]), FramesIn(b, n));
             m.phase == Done && m.tick == n && b[|b| - STATE_LEN..] == EncodeState(m)
    ensures ReplayOf(ph, b, UnLe(b[12..20]), b[20], FramesIn(b, n))
  {
    hide EncodeFrames, DecodeFrames, EncodeState, Play, Init, Pow256, UnLe, Le, Region;
    var seed, perTeam, frames, num := UnLe(b[12..20]), b[20], FramesIn(b, n), 2 * b[20];
    Pow256Values();
    LeUnLe(b[8..12]);
    LeUnLe(b[12..20]);
    EncodeDecodeFrames(b[HEADER_LEN..HEADER_LEN + Region(n, num)], num, n);
    assert b[..HEADER_LEN] == b[..8] + (b[8..12] + (b[12..20] + [b[20]]));
    assert b == b[..HEADER_LEN] + (b[HEADER_LEN..HEADER_LEN + Region(n, num)] + b[|b| - STATE_LEN..]);
  }

  /** The frame region divides into ticks in at most one way. */
  lemma FramedIff(b: bytes, n: nat)
    requires |b| >= HEADER_LEN + STATE_LEN && 1 <= b[20] <= 4
    ensures var (k, len) := (CTL_LEN * (2 * b[20]), |b| - HEADER_LEN - STATE_LEN);
            len == Region(n, 2 * b[20]) <==> len % k == 0 && n == len / k
  {
    hide Region;
    RegionProduct(n, 2 * b[20]);
    if
    case b[20] == 1 =>
    case b[20] == 2 =>
    case b[20] == 3 =>
    case b[20] == 4 =>
  }

  /** ar_verify_walk: re-simulates the frames without pilots. */
  method VerifyWalk(h: Hash, ph: Physics, b: bytes, n: nat) returns (m: Match, chain: bytes)
    requires Framed(b, n)
    ensures m == Play(ph, Init(ph, UnLe(b[12..20]), b[20]), FramesIn(b, n))
    ensures chain == Chain(h, ph, UnLe(b[12..20]), b[20], FramesIn(b, n))
  {
    hide EncodeState, Play, Init, Pow256, UnLe, Le, Chain, ChainInit, ChainFold, Tick, DecodeFrames, DecodeFrame,
      Region, Magic;
    var seed, perTeam := UnLe(b[12..20]), b[20];
    var num := 2 * perTeam;
    m := Init(ph, seed, perTeam);
    chain := ChainInit(h, seed, perTeam);
    var at := HEADER_LEN;
    ghost var frames := [];
    WalkStart(h, ph, seed, perTeam);
    for t := 0 to n
      invariant at == HEADER_LEN + Region(t, num) <= |b|
      invariant frames == DecodeFrames(b[HEADER_LEN..at], num, t)
      invariant m == Play(ph, Init(ph, seed, perTeam), frames)
      invariant chain == Chain(h, ph, seed, perTeam, frames)
    {
      RegionMonotone(t + 1, n, num);
      var next := at + CTL_LEN * num;
      RegionStep(t, num);
      WalkStep(b[HEADER_LEN..next], b[HEADER_LEN..at], b[at..next], num, t);
      var ctls := DecodeFrame(b[at..next], num);
      PlayAppend(ph, Init(ph, seed, perTeam), frames, ctls);
      ChainAppend(h, ph, seed, perTeam, frames, ctls);
      m := Tick(ph, m, ctls);
      chain := ChainFold(h, chain, m);
      frames, at := frames + [ctls], next;
    }
  }

  lemma WalkStart(h: Hash, ph: Physics, seed: nat, perTeam: byte)
    ensures Play(ph, Init(ph, seed, perTeam), []) == Init(ph, seed, perTeam)
    ensures Chain(h, ph, seed, perTeam, []) == ChainInit(h, seed, perTeam)
    ensures Region(0, 2 * perTeam) == 0 && DecodeFrames([], 2 * perTeam, 0) == []
  {
  }

  lemma RegionStep(t: nat, num: nat)
    ensures Region(t + 1, num) == Region(t, num) + CTL_LEN * num
  {
  }

  lemma WalkStep(b: bytes, a: bytes, c: bytes, num: nat, t: nat)
    requires b == a + c && |a| == Region(t, num) && |c| == CTL_LEN * num && |b| == Region(t + 1, num)
    ensures DecodeFrames(b, num, t + 1) == DecodeFrames(a, num, t) + [DecodeFrame(c, num)]
  {
    hide DecodeFrame;
    assert b[..|a|] == a && b[|a|..] == c;
  }

  lemma {:induction false} RegionMonotone(a: nat, b: nat, num: nat)
    requires a <= b
    ensures Region(a, num) <= Region(b, num)
  {
    if a < b { RegionMonotone(a, b - 1, num); }
  }

  /** Every header check a replay passes. */
  lemma ReplayHeader(ph: Physics, b: bytes)
    ensures IsReplay(ph, b) ==>
              && HEADER_LEN + STATE_LEN <= |b| <= MAX_REPLAY
              && b[..8] == Magic() && UnLe(b[8..12]) == 1 && 1 <= b[20] <= 4
  {
    hide ReplayOf, UnLe, Region;
    if IsReplay(ph, b) {
      var seed: nat, perTeam: byte, frames :| ReplayOf(ph, b, seed, perTeam, frames);
      ReplayElim(ph, b, seed, perTeam, frames);
    }
  }

  /** Every check on the body a replay passes, with the ticks the size gives. */
  lemma ReplayBody(ph: Physics, b: bytes, n: nat)
    requires |b| >= HEADER_LEN + STATE_LEN && 1 <= b[20] <= 4
    requires n == (|b| - HEADER_LEN - STATE_LEN) / (CTL_LEN * (2 * b[20]))
    ensures IsReplay(ph, b) ==> (|b| - HEADER_LEN - STATE_LEN) % (CTL_LEN * (2 * b[20])) == 0 && Framed(b, n)
    ensures IsReplay(ph, b) ==> var m := Play(ph, Init(ph, UnLe(b[12..20]), b[20]), FramesIn(b, n));
                                m.phase == Done && m.tick == n && b[|b| - STATE_LEN..] == EncodeState(m)
  {
    hide UnLe, Region, Play, Init, EncodeState, Magic, FramesIn, ReplayBytes, Pow256, FramesOf;
    if IsReplay(ph, b) {
      var seed: nat, perTeam: byte, frames :| ReplayOf(ph, b, seed, perTeam, frames);
      ReplayElim(ph, b, seed, perTeam, frames);
      FramedIff(b, |frames|);
    }
  }

  lemma FramedIntro(b: bytes, n: nat)
    requires |b| >= HEADER_LEN + STATE_LEN && b[..8] == Magic() && UnLe(b[8..12]) == 1 && 1 <= b[20] <= 4
    requires var (k, len) := (CTL_LEN * (2 * b[20]), |b| - HEADER_LEN - STATE_LEN);
             len % k == 0 && n == len / k
    ensures Framed(b, n)
  {
    hide UnLe, Region, Magic;
    FramedIff(b, n);
  }

  lemma AcceptedRoots(h: Hash, ph: Physics, b: bytes, n: nat, m: Match, chain: bytes)
    requires Framed(b, n) && m == Play(ph, Init(ph, UnLe(b[12..20]), b[20]), FramesIn(b, n))
    requires m.phase == Done && m.tick == n && b[|b| - STATE_LEN..] == EncodeState(m)
    requires chain == Chain(h, ph, UnLe(b[12..20]), b[20], FramesIn(b, n))
    ensures IsReplay(ph, b)
    ensures exists frames ::
              && ReplayOf(ph, b, UnLe(b[12..20]), b[20], frames) && n == |frames|
              && Roots(Sha3(h, b), Sha3(h, EncodeState(m)), chain) == RootsOf(h, ph, UnLe(b[12..20]), b[20], frames)
  {
    hide UnLe, Region, Play, Init, EncodeState, Magic, FramesIn, ReplayBytes, Pow256, Chain, Sha3, FramesOf;
    ReplayIntro(ph, b, n);
    FramesInLength(b, n);
  }

  lemma FramesInLength(b: bytes, n: nat)
    requires Framed(b, n)
    ensures |FramesIn(b, n)| == n
  {
    hide UnLe, Region, Magic, DecodeFrames;
  }

  /** ar_verify_replay: accepts exactly the replays (and, when a root is asked
      for, exactly the one with that root); the roots it prints are those the
      run that recorded the frames printed. */
  method VerifyReplay(h: Hash, ph: Physics, b: bytes, want: Wanted) returns (v: Verdict)
    ensures v.Accepted? <==> IsReplay(ph, b) && (want == Anything || want == Root(Sha3(h, b)))
    ensures v.BadWanted? <==> IsReplay(ph, b) && want == Malformed
    ensures v.Accepted? ==> exists frames ::
              ReplayOf(ph, b, v.seed, v.perTeam, frames) && v.ticks == |frames|
                && v.roots == RootsOf(h, ph, v.seed, v.perTeam, frames)
  {
    hide UnLe, Magic, Framed, FramesIn, EncodeState, Play, Init, Chain, Sha3, IsReplay, ReplayOf, RootsOf;
    ReplayHeader(ph, b);
    if |b| > MAX_REPLAY { return Mismatch("read"); }
    if |b| < HEADER_LEN + STATE_LEN { return Mismatch("truncated"); }
    if b[..8] != Magic() { return Mismatch("header-magic"); }
    if UnLe(b[8..12]) != 1 { return Mismatch("header-version"); }
    var seed, perTeam := UnLe(b[12..20]), b[20];
    if perTeam < 1 || perTeam > 4 { return Mismatch("header-planes"); }
    var tickBytes, framesLen := CTL_LEN * (2 * perTeam), |b| - HEADER_LEN - STATE_LEN;
    var n := framesLen / tickBytes;
    ReplayBody(ph, b, n);
    if framesLen % tickBytes != 0 { return Mismatch("size"); }
    FramedIntro(b, n);
    var m, chain := VerifyWalk(h, ph, b, n);
    if m.phase != Done { return Mismatch("match-incomplete"); }
    if m.tick != n { return Mismatch("tick-count"); }
    var state := EncodeState(m);
    if state != b[|b| - STATE_LEN..] { return Mismatch("final-state"); }
    AcceptedRoots(h, ph, b, n, m, chain);
    if want == Malformed { return BadWanted; }
    if want.Root? && Sha3(h, b) != want.root { return Mismatch("replay-root"); }
    v := Accepted(seed, perTeam, n, Roots(Sha3(h, b), Sha3(h, state), chain));
  }

  /** End to end: what a match records is accepted and gives the same roots, and
      a file checked against the recorded root is accepted exactly if it is the
      recorded file. */
  method RecordThenVerify(h: Hash, ph: Physics, seed: nat, perTeam: byte, p: Pilots, file: bytes)
    returns (run: Option<Run>, own: Verdict, other: Verdict)
    requires seed < Pow256(8) && 1 <= perTeam <= 4
    ensures run.Some? && own == Accepted(seed, perTeam, run.value.final.tick, run.value.roots)
    ensures NoCollision(h, {file, run.value.replay}) ==> (other.Accepted? <==> file == run.value.replay)
  {
    hide UnLe, Pow256, EncodeState, Play, Init, Chain, Sha3, ReplayOf, RootsOf, MatchFrames, Complete, ReplayBytes;
    run := RunMatch(h, ph, seed, perTeam, p);
    var b := run.value.replay;
    ghost var frames := MatchFrames(ph, seed, perTeam, p);
    assert IsReplay(ph, b);
    MatchCompletes(ph, seed, perTeam, p);
    CompleteElim(ph, seed, perTeam, frames);
    own := VerifyReplay(h, ph, b, Anything);
    ghost var g :| ReplayOf(ph, b, own.seed, own.perTeam, g) && own.ticks == |g|
      && own.roots == RootsOf(h, ph, own.seed, own.perTeam, g);
    ReplayUnique(ph, b, seed, perTeam, frames, own.seed, own.perTeam, g);
    other := VerifyReplay(h, ph, file, Root(run.value.roots.replay));
    assert run.value.roots.replay == Sha3(h, b) by { RootsReplay(h, ph, b, seed, perTeam, frames); }
    if NoCollision(h, {file, b}) && other.Accepted? { NoCollisionElim(h, {file, b}, file, b); }
  }

  lemma RootsReplay(h: Hash, ph: Physics, b: bytes, seed: nat, perTeam: byte, frames: seq<seq<Ctl>>)
    requires ReplayOf(ph, b, seed, perTeam, frames)
    ensures RootsOf(h, ph, seed, perTeam, frames).replay == Sha3(h, b)
  {
    hide Sha3, Chain, Play, Init, EncodeState, ReplayBytes, Complete, FramesOf, Pow256;
  }
}
