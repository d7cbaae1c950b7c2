/** arena_runner: the lock-step match between two pilots that may die at any
    point, the replay it records, and the verifier that re-simulates it. */
module ArenaRunner {
  import opened Bytes
  import opened Wrappers
  import opened ArenaSim
  import opened ArenaReplay

  /** What a pilot does when asked for plane i at tick t: a frame, or nothing
      (write failed, stream ended, process gone). Any behaviour is one of these. */
  type Answers = (nat, nat) -> Option<bytes>

  predicate BadAnswer(a: Option<bytes>) {
    a == None || |a.value| != CTL_LEN
  }

  /* ---- what one tick records -------------------------------------------------- */

  /** The pilot dies this tick: a living plane of its team gets no whole frame. */
  predicate TeamFails(m: Match, ans: Answers, first: nat, perTeam: nat) {
    exists i :: first <= i < first + perTeam && Alive(m, i) && BadAnswer(ans(m.tick, i))
  }

  /** The recorded control of plane i: neutral for a dead plane and for the whole
      team of a dead or dying pilot, otherwise the pilot's answer. */
  function TeamCtl(m: Match, ans: Answers, dead: bool, first: nat, perTeam: nat, i: nat): Ctl
    requires first <= i < first + perTeam
  {
    if dead || TeamFails(m, ans, first, perTeam) || !Alive(m, i) then NEUTRAL
    else
      assert !BadAnswer(ans(m.tick, i));
      DecodeCtl(ans(m.tick, i).value)
  }

  datatype Pilots = Pilots(red: Answers, blue: Answers)

  /** The frames recorded so far and which pilots have died. */
  datatype Log = Log(frames: seq<seq<Ctl>>, redDead: bool, blueDead: bool)

  function CtlAt(m: Match, p: Pilots, log: Log, perTeam: nat, i: nat): Ctl
    requires i < 2 * perTeam
  {
    if i < perTeam then TeamCtl(m, p.red, log.redDead, 0, perTeam, i)
    else TeamCtl(m, p.blue, log.blueDead, perTeam, perTeam, i)
  }

  function NextFrame(m: Match, p: Pilots, log: Log, perTeam: nat): (f: seq<Ctl>)
    ensures |f| == 2 * perTeam
    ensures forall i :: 0 <= i < 2 * perTeam ==> f[i] == CtlAt(m, p, log, perTeam, i)
  {
    seq(2 * perTeam, i requires 0 <= i < 2 * perTeam => CtlAt(m, p, log, perTeam, i))
  }

  function NextLog(m: Match, p: Pilots, log: Log, perTeam: nat): Log {
    Log(log.frames + [NextFrame(m, p, log, perTeam)],
        log.redDead || TeamFails(m, p.red, 0, perTeam),
        log.blueDead || TeamFails(m, p.blue, perTeam, perTeam))
  }

  /** The log after n turns of the match loop. */
  function LogAt(ph: Physics, seed: nat, perTeam: nat, p: Pilots, n: nat): Log {
    if n == 0 then Log([], false, false)
    else
      var log := LogAt(ph, seed, perTeam, p, n - 1);
      var m := Play(ph, Init(ph, seed, perTeam), log.frames);
      if m.phase == Done then log else NextLog(m, p, log, perTeam)
  }

  /** The frames of the whole match. */
  function MatchFrames(ph: Physics, seed: nat, perTeam: nat, p: Pilots): seq<seq<Ctl>> {
    LogAt(ph, seed, perTeam, p, TICK_LIMIT).frames
  }

  /** While the match runs, n turns have recorded n frames; once it is done the
      recorded frames are a complete match. */
  lemma {:induction false} LogProgress(ph: Physics, seed: nat, perTeam: nat, p: Pilots, n: nat)
    ensures var log := LogAt(ph, seed, perTeam, p, n);
            var m := Play(ph, Init(ph, seed, perTeam), log.frames);
            && FramesOf(log.frames, 2 * perTeam) && Live(m)
            && (m.phase == Running ==> |log.frames| == n == m.tick)
            && (m.phase == Done ==> Complete(ph, seed, perTeam, log.frames))
  {
    hide Play, Tick, TeamFails, NextFrame;
    if n == 0 {
      LogEmpty(ph, seed, perTeam);
    } else {
      LogProgress(ph, seed, perTeam, p, n - 1);
      var log := LogAt(ph, seed, perTeam, p, n - 1);
      var m := Play(ph, Init(ph, seed, perTeam), log.frames);
      if m.phase == Running {
        var f := NextFrame(m, p, log, perTeam);
        PlayAppend(ph, Init(ph, seed, perTeam), log.frames, f);
        TickRunning(ph, m, f);
      }
    }
  }

  lemma LogEmpty(ph: Physics, seed: nat, perTeam: nat)
    ensures Play(ph, Init(ph, seed, perTeam), []) == Init(ph, seed, perTeam)
  {
  }

  /** Whatever the pilots do, the match ends and its frames are complete. */
  lemma MatchCompletes(ph: Physics, seed: nat, perTeam: nat, p: Pilots)
    ensures FramesOf(MatchFrames(ph, seed, perTeam, p), 2 * perTeam)
    ensures Complete(ph, seed, perTeam, MatchFrames(ph, seed, perTeam, p))
  {
    hide Play, Init, LogAt, Complete;
    LogProgress(ph, seed, perTeam, p, TICK_LIMIT);
  }

  lemma {:induction false} LogStops(ph: Physics, seed: nat, perTeam: nat, p: Pilots, k: nat, n: nat)
    requires k <= n && Play(ph, Init(ph, seed, perTeam), LogAt(ph, seed, perTeam, p, k).frames).phase == Done
    ensures LogAt(ph, seed, perTeam, p, n) == LogAt(ph, seed, perTeam, p, k)
    decreases n
  {
    hide Play, Init, NextLog;
    if k < n { LogStops(ph, seed, perTeam, p, k, n - 1); }
  }

  /** The frames of the match are built one turn at a time. */
  lemma {:induction false} LogPrefix(ph: Physics, seed: nat, perTeam: nat, p: Pilots, k: nat, n: nat)
    requires k <= n
    ensures LogAt(ph, seed, perTeam, p, k).frames <= LogAt(ph, seed, perTeam, p, n).frames
    ensures LogAt(ph, seed, perTeam, p, k).redDead ==> LogAt(ph, seed, perTeam, p, n).redDead
    ensures LogAt(ph, seed, perTeam, p, k).blueDead ==> LogAt(ph, seed, perTeam, p, n).blueDead
    decreases n
  {
    hide Play, Init, NextFrame, TeamFails;
    if k < n { LogPrefix(ph, seed, perTeam, p, k, n - 1); }
  }

  /** Turn t of the match recorded what the tick rule says, from the log and the
      match as they stood at turn t. */
  lemma FrameAt(ph: Physics, seed: nat, perTeam: nat, p: Pilots, t: nat)
    requires t < |MatchFrames(ph, seed, perTeam, p)|
    ensures var log := LogAt(ph, seed, perTeam, p, t);
            var frames := MatchFrames(ph, seed, perTeam, p);
            && log.frames == frames[..t]
            && frames[t] == NextFrame(Play(ph, Init(ph, seed, perTeam), frames[..t]), p, log, perTeam)
  {
    hide Play, Init, NextFrame, TeamFails, Complete;
    var frames := MatchFrames(ph, seed, perTeam, p);
    var m0 := Init(ph, seed, perTeam);
    MatchCompletes(ph, seed, perTeam, p);
    CompleteLength(ph, seed, perTeam, frames);
    CompletePrefixRunning(ph, seed, perTeam, frames, t);
    var log := LogAt(ph, seed, perTeam, p, t);
    LogPrefix(ph, seed, perTeam, p, t, TICK_LIMIT);
    LogProgress(ph, seed, perTeam, p, t);
    assert log.frames == frames[..|log.frames|];
    if Play(ph, m0, log.frames).phase == Done {
      LogStops(ph, seed, perTeam, p, t, TICK_LIMIT);
      CompleteElim(ph, seed, perTeam, frames);
    }
    LogPrefix(ph, seed, perTeam, p, t + 1, TICK_LIMIT);
    var next := LogAt(ph, seed, perTeam, p, t + 1);
    assert next.frames[t] == frames[t];
  }

  lemma CompleteElim(ph: Physics, seed: nat, perTeam: nat, frames: seq<seq<Ctl>>)
    requires Complete(ph, seed, perTeam, frames)
    ensures Play(ph, Init(ph, seed, perTeam), frames).phase == Done
    ensures Play(ph, Init(ph, seed, perTeam), frames).tick == |frames|
  {
  }

  /* ---- deaths ---------------------------------------------------------------------- */

  /** Every recorded control of a plane that is dead at that tick is neutral. */
  ghost predicate DeadPlanesNeutral(ph: Physics, seed: nat, perTeam: nat, frames: seq<seq<Ctl>>) {
    forall t, i :: (0 <= t < |frames| && 0 <= i < |frames[t]|
      && !Alive(Play(ph, Init(ph, seed, perTeam), frames[..t]), i)) ==> frames[t][i] == NEUTRAL
  }

  lemma RecordedNeutral(ph: Physics, seed: nat, perTeam: nat, p: Pilots)
    ensures DeadPlanesNeutral(ph, seed, perTeam, MatchFrames(ph, seed, perTeam, p))
  {
    hide Play, Init, NextFrame, TeamFails, Complete, MatchFrames, LogAt, Alive;
    var frames := MatchFrames(ph, seed, perTeam, p);
    MatchCompletes(ph, seed, perTeam, p);
    forall t, i | 0 <= t < |frames| && 0 <= i < |frames[t]| && !Alive(Play(ph, Init(ph, seed, perTeam), frames[..t]), i)
      ensures frames[t][i] == NEUTRAL
    {
      FrameAt(ph, seed, perTeam, p, t);
    }
  }

  /** From the tick a pilot dies on, its whole team is recorded neutral. */
  lemma DeadTeamNeutral(ph: Physics, seed: nat, perTeam: nat, p: Pilots, d: nat, t: nat, i: nat)
    requires d <= t < |MatchFrames(ph, seed, perTeam, p)| && i < 2 * perTeam
    requires var m := Play(ph, Init(ph, seed, perTeam), MatchFrames(ph, seed, perTeam, p)[..d]);
             if i < perTeam then TeamFails(m, p.red, 0, perTeam) else TeamFails(m, p.blue, perTeam, perTeam)
    ensures |MatchFrames(ph, seed, perTeam, p)[t]| == 2 * perTeam
    ensures MatchFrames(ph, seed, perTeam, p)[t][i] == NEUTRAL
  {
    hide Play, Init, NextFrame, TeamFails, Complete, MatchFrames, Alive;
    FrameAt(ph, seed, perTeam, p, t);
    FrameAt(ph, seed, perTeam, p, d);
    if d < t {
      CompletePrefixRunning(ph, seed, perTeam, MatchFrames(ph, seed, perTeam, p), d) by {
        MatchCompletes(ph, seed, perTeam, p);
      }
      LogPrefix(ph, seed, perTeam, p, d + 1, t);
    }
  }

  /* ---- which replays a run can produce --------------------------------------------- */

  /** Pilots that answer with given frames. */
  function Reciting(frames: seq<seq<Ctl>>): Answers {
    (t: nat, i: nat) => if t < |frames| && i < |frames[t]| then Some(EncodeCtl(frames[t][i])) else None
  }

  /** Reciting pilots never die and, where planes are alive, say their lines. */
  lemma {:induction false} ReciteLog(ph: Physics, seed: nat, perTeam: nat, frames: seq<seq<Ctl>>, n: nat)
    requires Complete(ph, seed, perTeam, frames) && FramesOf(frames, 2 * perTeam)
    requires DeadPlanesNeutral(ph, seed, perTeam, frames) && n <= |frames|
    ensures LogAt(ph, seed, perTeam, Pilots(Reciting(frames), Reciting(frames)), n) == Log(frames[..n], false, false)
  {
    hide Play, Init, Complete, Alive, NextFrame, DeadPlanesNeutral, TeamFails;
    var p := Pilots(Reciting(frames), Reciting(frames));
    if n > 0 {
      ReciteLog(ph, seed, perTeam, frames, n - 1);
      CompletePrefixRunning(ph, seed, perTeam, frames, n - 1);
      var m := Play(ph, Init(ph, seed, perTeam), frames[..n - 1]);
      ReciteFrame(ph, seed, perTeam, frames, n - 1, m);
      assert frames[..n] == frames[..n - 1] + [frames[n - 1]];
    }
  }

  lemma ReciteFrame(ph: Physics, seed: nat, perTeam: nat, frames: seq<seq<Ctl>>, t: nat, m: Match)
    requires t < |frames| && FramesOf(frames, 2 * perTeam) && DeadPlanesNeutral(ph, seed, perTeam, frames)
    requires m == Play(ph, Init(ph, seed, perTeam), frames[..t]) && m.tick == t
    ensures !TeamFails(m, Reciting(frames), 0, perTeam) && !TeamFails(m, Reciting(frames), perTeam, perTeam)
    ensures NextFrame(m, Pilots(Reciting(frames), Reciting(frames)), Log(frames[..t], false, false), perTeam)
      == frames[t]
  {
    hide Play, Init, Alive, EncodeCtl, DecodeCtl, NextFrame;
    var ans := Reciting(frames);
    forall i: nat | i < 2 * perTeam ensures ans(m.tick, i) == Some(EncodeCtl(frames[t][i])) {}
    var f := NextFrame(m, Pilots(ans, ans), Log(frames[..t], false, false), perTeam);
    forall i | 0 <= i < 2 * perTeam ensures f[i] == frames[t][i] {
      DecodeEncodeCtl(frames[t][i]);
    }
  }

  /** Complete frames come from some pair of pilots exactly when every dead
      plane's control is neutral. The verifier does not look at that: a replay
      with other bytes there is accepted, though no run records it. */
  lemma RealizableIff(ph: Physics, seed: nat, perTeam: nat, frames: seq<seq<Ctl>>)
    requires Complete(ph, seed, perTeam, frames) && FramesOf(frames, 2 * perTeam)
    ensures (exists p :: MatchFrames(ph, seed, perTeam, p) == frames) <==> DeadPlanesNeutral(ph, seed, perTeam, frames)
  {
    hide Complete, DeadPlanesNeutral, LogAt, Play, Init;
    if p :| MatchFrames(ph, seed, perTeam, p) == frames {
      RecordedNeutral(ph, seed, perTeam, p);
    }
    if DeadPlanesNeutral(ph, seed, perTeam, frames) {
      var p := Pilots(Reciting(frames), Reciting(frames));
      CompleteLength(ph, seed, perTeam, frames);
      ReciteLog(ph, seed, perTeam, frames, |frames|);
      assert frames[..|frames|] == frames;
      CompleteElim(ph, seed, perTeam, frames);
      LogStops(ph, seed, perTeam, p, |frames|, TICK_LIMIT);
      assert MatchFrames(ph, seed, perTeam, p) == frames;
    }
  }

  /* ---- what the dead planes' bytes can be ----------------------------------------- */

  /** The frames agree on every plane that is alive. */
  predicate SameLiving(m: Match, f: seq<Ctl>, g: seq<Ctl>) {
    |f| == |g| && forall i :: 0 <= i < |f| && Alive(m, i) ==> f[i] == g[i]
  }

  /** plane_update does not read a dead plane's control. */
  ghost predicate IgnoresDead(ph: Physics) {
    forall m: Match, f, g :: SameLiving(m, f, g) ==> ph.step(m.world, f) == ph.step(m.world, g)
  }

  /** Tick by tick the frames agree on the planes alive then. */
  ghost predicate SameMatch(ph: Physics, seed: nat, perTeam: nat, f: seq<seq<Ctl>>, g: seq<seq<Ctl>>) {
    |f| == |g| && forall t :: 0 <= t < |f| ==> SameLiving(Play(ph, Init(ph, seed, perTeam), f[..t]), f[t], g[t])
  }

  lemma TickSame(ph: Physics, m: Match, f: seq<Ctl>, g: seq<Ctl>)
    requires IgnoresDead(ph) && SameLiving(m, f, g)
    ensures Tick(ph, m, f) == Tick(ph, m, g)
  {
    hide SameLiving, Fit;
    assert ph.step(m.world, f) == ph.step(m.world, g);
  }

  /** Such frames play the same match. */
  lemma {:induction false} PlaySame(ph: Physics, seed: nat, perTeam: nat, f: seq<seq<Ctl>>, g: seq<seq<Ctl>>, t: nat)
    requires IgnoresDead(ph) && SameMatch(ph, seed, perTeam, f, g) && t <= |f|
    ensures Play(ph, Init(ph, seed, perTeam), f[..t]) == Play(ph, Init(ph, seed, perTeam), g[..t])
  {
    hide Play, Init, IgnoresDead, SameLiving, Tick;
    var m := Init(ph, seed, perTeam);
    if t == 0 {
      assert f[..0] == g[..0];
    } else {
      PlaySame(ph, seed, perTeam, f, g, t - 1);
      assert f[..t] == f[..t - 1] + [f[t - 1]] && g[..t] == g[..t - 1] + [g[t - 1]];
      PlayAppend(ph, m, f[..t - 1], f[t - 1]);
      PlayAppend(ph, m, g[..t - 1], g[t - 1]);
      TickSame(ph, Play(ph, m, f[..t - 1]), f[t - 1], g[t - 1]);
    }
  }

  /** A replay stays one when dead planes' controls change: same length, same final
      state, accepted by the verifier. */
  lemma DeadControlsFree(ph: Physics, b: bytes, seed: nat, perTeam: byte, f: seq<seq<Ctl>>, g: seq<seq<Ctl>>)
    requires IgnoresDead(ph) && SameMatch(ph, seed, perTeam, f, g) && ReplayOf(ph, b, seed, perTeam, f)
    ensures ReplayOf(ph, ReplayBytes(ph, seed, perTeam, g), seed, perTeam, g)
    ensures Play(ph, Init(ph, seed, perTeam), g) == Play(ph, Init(ph, seed, perTeam), f)
  {
    hide Play, Init, IgnoresDead, ReplayBytes, Pow256;
    assert f[..|f|] == f && g[..|g|] == g;
    PlaySame(ph, seed, perTeam, f, g, |f|);
    forall t | 0 <= t < |g| ensures |g[t]| == 2 * perTeam { assert |f[t]| == 2 * perTeam; }
  }

  /** Whatever the replay: give a plane that is dead at tick t any control that is
      not neutral, and the result is a replay that no pilots can have caused. */
  lemma UnrecordedReplay(ph: Physics, b: bytes, seed: nat, perTeam: byte, frames: seq<seq<Ctl>>, t: nat, i: nat, c: Ctl)
    requires IgnoresDead(ph) && ReplayOf(ph, b, seed, perTeam, frames) && t < |frames| && i < 2 * perTeam
      && c != NEUTRAL
    requires !Alive(Play(ph, Init(ph, seed, perTeam), frames[..t]), i)
    ensures |frames[t]| == 2 * perTeam
    ensures var other := frames[t := frames[t][i := c]];
            && ReplayOf(ph, ReplayBytes(ph, seed, perTeam, other), seed, perTeam, other)
            && !exists p :: MatchFrames(ph, seed, perTeam, p) == other
  {
    hide Play, Init, IgnoresDead, ReplayBytes, Pow256, Complete, MatchFrames, Alive;
    assert |frames[t]| == 2 * perTeam;
    var other := frames[t := frames[t][i := c]];
    forall k | 0 <= k < |frames|
      ensures SameLiving(Play(ph, Init(ph, seed, perTeam), frames[..k]), frames[k], other[k])
    {
    }
    DeadControlsFree(ph, b, seed, perTeam, frames, other);
    assert other[..t] == frames[..t] && other[t][i] == c;
    RealizableIff(ph, seed, perTeam, other);
  }

  /** The frames with every dead plane's control neutral. */
  function Neutralized(ph: Physics, seed: nat, perTeam: nat, frames: seq<seq<Ctl>>): (r: seq<seq<Ctl>>)
    ensures |r| == |frames|
    ensures forall t :: 0 <= t < |r| ==> r[t] == NeutralFrame(Play(ph, Init(ph, seed, perTeam), frames[..t]), frames[t])
  {
    seq(|frames|, t requires 0 <= t < |frames| =>
      NeutralFrame(Play(ph, Init(ph, seed, perTeam), frames[..t]), frames[t]))
  }

  function NeutralFrame(m: Match, f: seq<Ctl>): (r: seq<Ctl>)
    ensures |r| == |f| && forall i :: 0 <= i < |f| ==> r[i] == if Alive(m, i) then f[i] else NEUTRAL
  {
    seq(|f|, i requires 0 <= i < |f| => if Alive(m, i) then f[i] else NEUTRAL)
  }

  /** Those bytes are all that is free: every replay the verifier accepts ends in the
      state, and after the ticks, of a match some pair of pilots really flies. */
  lemma AcceptedIsFlown(ph: Physics, b: bytes, seed: nat, perTeam: byte, frames: seq<seq<Ctl>>)
    requires IgnoresDead(ph) && ReplayOf(ph, b, seed, perTeam, frames)
    ensures exists p :: Flown(ph, seed, perTeam, frames, p)
  {
    hide Play, Init, IgnoresDead, ReplayBytes, Pow256, Complete, MatchFrames, Alive, FramesOf;
    var flown := Neutralized(ph, seed, perTeam, frames);
    forall k | 0 <= k < |frames|
      ensures SameLiving(Play(ph, Init(ph, seed, perTeam), frames[..k]), frames[k], flown[k])
    {
    }
    DeadControlsFree(ph, b, seed, perTeam, frames, flown);
    forall t, i | 0 <= t < |flown| && 0 <= i < |flown[t]| && !Alive(Play(ph, Init(ph, seed, perTeam), flown[..t]), i)
      ensures flown[t][i] == NEUTRAL
    {
      PlaySame(ph, seed, perTeam, frames, flown, t);
    }
    RealizableIff(ph, seed, perTeam, flown);
    var p :| MatchFrames(ph, seed, perTeam, p) == flown;
    assert Flown(ph, seed, perTeam, frames, p);
  }

  ghost predicate Flown(ph: Physics, seed: nat, perTeam: nat, frames: seq<seq<Ctl>>, p: Pilots) {
    var m := Init(ph, seed, perTeam);
    && |MatchFrames(ph, seed, perTeam, p)| == |frames|
    && Play(ph, m, MatchFrames(ph, seed, perTeam, p)) == Play(ph, m, frames)
  }
}
