/** arena_svg: the renderer's re-simulation. It accepts exactly the files the
    verifier accepts, and one pass with a 60-state window picks the six panels. */
module ArenaSvg {
  import opened Bytes
  import opened Wrappers
  import opened ArenaSim
  import opened ArenaReplay
  import opened ArenaRunner
  import opened ArenaRun

  const LAG: nat := 60

  function Score(m: Match): nat { m.red + m.blue }

  /** The states of a replay: before the first frame, and after each. */
  ghost function States(ph: Physics, seed: nat, perTeam: nat, frames: seq<seq<Ctl>>): (s: seq<Match>)
    ensures |s| == |frames| + 1
  {
    seq(|frames| + 1, t requires 0 <= t <= |frames| => Play(ph, Init(ph, seed, perTeam), frames[..t]))
  }

  /* ---- what the panels show ------------------------------------------------------- */

  ghost predicate ShotPanel(s: seq<Match>, r: Option<Match>) {
    match r
    case None => forall t :: 1 <= t < |s| ==> !AnyShot(s[t])
    case Some(m) => exists t :: 1 <= t < |s| && m == s[t] && AnyShot(s[t]) && forall u :: 1 <= u < t ==> !AnyShot(s[u])
  }

  /** Tick t scored a kill. */
  ghost predicate Kill(s: seq<Match>, t: int) {
    1 <= t < |s| && Score(s[t]) > Score(s[t - 1])
  }

  ghost predicate KillPanel(s: seq<Match>, r: Option<Match>) {
    match r
    case None => forall t :: !Kill(s, t)
    case Some(m) => exists t :: Kill(s, t) && m == s[t] && forall u :: u < t ==> !Kill(s, u)
  }

  /** One second back; the first tick when there is not a second. */
  function Back(t: int): int { if t <= LAG then 1 else t - LAG }

  /** One second before the last kill. */
  ghost predicate AttackPanel(s: seq<Match>, r: Option<Match>) {
    match r
    case None => forall t :: !Kill(s, t)
    case Some(m) => exists t :: 1 <= t < |s| && Kill(s, t) && m == s[Back(t)] && forall u :: u > t ==> !Kill(s, u)
  }

  ghost predicate MidPanel(s: seq<Match>, mid: nat, r: Option<Match>) {
    r == if 1 <= mid < |s| then Some(s[mid]) else None
  }

  lemma ShotStep(s: seq<Match>, m: Match, r: Option<Match>)
    requires |s| >= 1 && ShotPanel(s, r)
    ensures ShotPanel(s + [m], if r.None? && AnyShot(m) then Some(m) else r)
  {
    hide AnyShot;
    var e := s + [m];
    assert e[|s|] == m;
    if r.Some? {
      var t :| 1 <= t < |s| && r.value == s[t] && AnyShot(s[t]) && forall u :: 1 <= u < t ==> !AnyShot(s[u]);
      assert e[t] == s[t];
    }
  }

  lemma KillKeeps(s: seq<Match>, m: Match, t: int)
    requires |s| >= 1
    ensures t < |s| ==> (Kill(s + [m], t) <==> Kill(s, t))
    ensures Kill(s + [m], |s|) <==> Score(m) > Score(s[|s| - 1])
    ensures t > |s| ==> !Kill(s + [m], t)
  {
  }

  lemma KillStep(s: seq<Match>, m: Match, r: Option<Match>)
    requires |s| >= 1 && KillPanel(s, r)
    ensures KillPanel(s + [m], if r.None? && Score(m) > Score(s[|s| - 1]) then Some(m) else r)
  {
    var e := s + [m];
    forall t: int ensures t < |s| ==> (Kill(e, t) <==> Kill(s, t))
      ensures Kill(e, |s|) <==> Score(m) > Score(s[|s| - 1])
      ensures t > |s| ==> !Kill(e, t)
    {
      KillKeeps(s, m, t);
    }
    assert e[|s|] == m;
    if r.Some? {
      var t :| Kill(s, t) && r.value == s[t] && forall u :: u < t ==> !Kill(s, u);
      assert Kill(e, t) && e[t] == s[t];
    }
  }

  lemma AttackStep(s: seq<Match>, m: Match, r: Option<Match>, back: Match)
    requires |s| >= 1 && AttackPanel(s, r)
    requires back == (s + [m])[Back(|s|)]
    ensures AttackPanel(s + [m], if Score(m) > Score(s[|s| - 1]) then Some(back) else r)
  {
    hide Kill, Score;
    var e := s + [m];
    forall t: int ensures t < |s| ==> (Kill(e, t) <==> Kill(s, t))
      ensures Kill(e, |s|) <==> Score(m) > Score(s[|s| - 1])
      ensures t > |s| ==> !Kill(e, t)
    {
      KillKeeps(s, m, t);
    }
    if Score(m) > Score(s[|s| - 1]) {
      assert Kill(e, |s|);
    } else if r.Some? {
      var t :| 1 <= t < |s| && Kill(s, t) && r.value == s[Back(t)] && forall u :: u > t ==> !Kill(s, u);
      assert Kill(e, t) && r.value == e[Back(t)];
    }
  }

  /* ---- the window -------------------------------------------------------------------- */

  function Slot(j: nat): (i: nat)
    ensures i < LAG && (j < LAG ==> i == j)
  {
    j % LAG
  }

  lemma SlotDistinct(j: nat, k: nat)
    requires j < k < j + LAG
    ensures Slot(j) != Slot(k)
  {
  }

  lemma SlotNext(j: nat)
    ensures Slot(j + 1) == (Slot(j) + 1) % LAG
    ensures j >= LAG ==> Slot(j - LAG) == Slot(j)
  {
  }

  /** The last 60 states in a ring: `head` is the oldest once it is full. */
  class Window {
    var ring: array<Match>
    var len: nat
    var head: nat

    ghost predicate Holds(pushed: seq<Match>)
      reads this, ring
    {
      && ring.Length == LAG
      && len == (if |pushed| < LAG then |pushed| else LAG)
      && head == (if |pushed| < LAG then 0 else Slot(|pushed|))
      && forall j :: |pushed| - len <= j < |pushed| ==> ring[Slot(j)] == pushed[j]
    }

    constructor (fill: Match)
      ensures Holds([]) && fresh(ring)
    {
      ring := new Match[LAG](i => fill);
      len, head := 0, 0;
    }

    /** as_push_lag */
    method Push(m: Match, ghost pushed: seq<Match>)
      requires Holds(pushed)
      modifies this, ring
      ensures Holds(pushed + [m]) && ring == old(ring)
    {
      hide Slot;
      SlotNext(|pushed|);
      forall j | 0 <= j && |pushed| - LAG < j < |pushed| ensures Slot(j) != Slot(|pushed|) {
        SlotDistinct(j, |pushed|);
      }
      if len < LAG {
        ring[len] := m;
        len := len + 1;
      } else {
        ring[head] := m;
        head := (head + 1) % LAG;
      }
    }

    /** The state 60 pushes ago, or the first one pushed. */
    method Oldest(m: Match, ghost pushed: seq<Match>) returns (r: Match)
      requires Holds(pushed)
      ensures r == if pushed == [] then m else pushed[if |pushed| < LAG then 0 else |pushed| - LAG]
    {
      hide Slot;
      if len > 0 {
        SlotNext(|pushed|);
        r := ring[head];
      } else {
        r := m;
      }
    }
  }

  /* ---- the pass -------------------------------------------------------------------------- */

  datatype Panels = Panels(shot: Option<Match>, kill: Option<Match>, mid: Option<Match>, attack: Option<Match>)

  ghost predicate PanelsOf(s: seq<Match>, mid: nat, p: Panels) {
    && ShotPanel(s, p.shot) && KillPanel(s, p.kill) && AttackPanel(s, p.attack)
    && (Counted(s) ==> MidPanel(s, mid, p.mid))
  }

  /** Every state's tick is its index: no frame was a no-op. */
  ghost predicate Counted(s: seq<Match>) {
    forall t :: 0 <= t < |s| ==> s[t].tick == t
  }

  /** The scores never fall, so the score remembered at the last kill is the
      score of the last state. */
  lemma ScoreMonotone(ph: Physics, m: Match, f: seq<Ctl>)
    ensures Score(Tick(ph, m, f)) >= Score(m)
  {
    hide Fit;
    if m.phase == Running {
      var (w, r, b) := ph.step(m.world, f);
      assert r >= 0 && b >= 0;
    }
  }

  lemma MidStep(s: seq<Match>, mid: nat, m: Match, r: Option<Match>)
    requires |s| >= 1 && (Counted(s) ==> MidPanel(s, mid, r))
    ensures Counted(s + [m]) ==> MidPanel(s + [m], mid, if m.tick == mid then Some(m) else r)
  {
    var e := s + [m];
    if Counted(e) {
      forall t | 0 <= t < |s| ensures s[t].tick == t { assert e[t] == s[t]; }
      assert e[|s|].tick == |s|;
    }
  }

  /** One turn of the loop in as_render. */
  method NotePanels(m: Match, mid: nat, window: Window, p: Panels, prev: nat, ghost s: seq<Match>)
    returns (q: Panels, score: nat)
    requires |s| >= 1 && PanelsOf(s, mid, p) && prev == Score(s[|s| - 1]) <= Score(m)
    requires window.Holds(s[1..])
    modifies window, window.ring
    ensures PanelsOf(s + [m], mid, q) && score == Score(m)
    ensures window.Holds((s + [m])[1..]) && window.ring == old(window.ring)
  {
    hide ShotPanel, KillPanel, AttackPanel, MidPanel, AnyShot, Score, Counted;
    var oldest := window.Oldest(m, s[1..]);
    ShotStep(s, m, p.shot);
    KillStep(s, m, p.kill);
    AttackStep(s, m, p.attack, oldest);
    MidStep(s, mid, m, p.mid);
    score := Score(m);
    q := Panels(if p.shot.None? && AnyShot(m) then Some(m) else p.shot,
                if p.kill.None? && score > prev then Some(m) else p.kill,
                if m.tick == mid then Some(m) else p.mid,
                if score > prev then Some(oldest) else p.attack);
    window.Push(m, s[1..]);
    assert (s + [m])[1..] == s[1..] + [m];
  }

  lemma StatesAppend(ph: Physics, seed: nat, perTeam: nat, frames: seq<seq<Ctl>>, f: seq<Ctl>)
    ensures var s := States(ph, seed, perTeam, frames);
            && s[|s| - 1] == Play(ph, Init(ph, seed, perTeam), frames)
            && States(ph, seed, perTeam, frames + [f]) == s + [Tick(ph, s[|s| - 1], f)]
  {
    hide Play, Init, Tick;
    var s, next := States(ph, seed, perTeam, frames), frames + [f];
    PlayAppend(ph, Init(ph, seed, perTeam), frames, f);
    assert frames[..|frames|] == frames && next[..|next|] == next;
    forall t | 0 <= t <= |frames| ensures States(ph, seed, perTeam, next)[t] == s[t] {
      assert next[..t] == frames[..t];
    }
  }

  lemma StatesEmpty(ph: Physics, seed: nat, perTeam: nat)
    ensures States(ph, seed, perTeam, []) == [Init(ph, seed, perTeam)]
  {
    hide Init;
  }

  /** The loop of as_render over the n recorded ticks. */
  method Simulate(ph: Physics, b: bytes, n: nat) returns (m: Match, p: Panels)
    requires Framed(b, n)
    ensures m == Play(ph, Init(ph, UnLe(b[12..20]), b[20]), FramesIn(b, n))
    ensures PanelsOf(States(ph, UnLe(b[12..20]), b[20], FramesIn(b, n)), n / 2, p)
  {
    hide Play, Init, Pow256, UnLe, Tick, DecodeFrames, DecodeFrame, Region, Magic, PanelsOf, States, AnyShot, Score;
    var seed, perTeam := UnLe(b[12..20]), b[20];
    var num := 2 * perTeam;
    m := Init(ph, seed, perTeam);
    p := Panels(None, None, None, None);
    var window := new Window(m);
    var prev, at := 0, HEADER_LEN;
    ghost var frames, s := [], [m];
    RenderStart(ph, seed, perTeam, n / 2, m);
    for t := 0 to n
      invariant at == HEADER_LEN + Region(t, num) <= |b|
      invariant frames == DecodeFrames(b[HEADER_LEN..at], num, t)
      invariant |s| >= 1 && s == States(ph, seed, perTeam, frames)
        && m == s[|s| - 1] == Play(ph, Init(ph, seed, perTeam), frames)
      invariant PanelsOf(s, n / 2, p) && prev == Score(m)
      invariant window.Holds(s[1..]) && fresh(window) && fresh(window.ring)
    {
      RegionMonotone(t + 1, n, num);
      var next := at + CTL_LEN * num;
      RegionStep(t, num);
      WalkStep(b[HEADER_LEN..next], b[HEADER_LEN..at], b[at..next], num, t);
      var ctls := DecodeFrame(b[at..next], num);
      PlayAppend(ph, Init(ph, seed, perTeam), frames, ctls);
      StatesAppend(ph, seed, perTeam, frames, ctls);
      ScoreMonotone(ph, m, ctls);
      m := Tick(ph, m, ctls);
      p, prev := NotePanels(m, n / 2, window, p, prev, s);
      s, frames, at := s + [m], frames + [ctls], next;
    }
  }

  lemma RenderStart(ph: Physics, seed: nat, perTeam: byte, mid: nat, m: Match)
    requires m == Init(ph, seed, perTeam)
    ensures Region(0, 2 * perTeam) == 0 && DecodeFrames([], 2 * perTeam, 0) == []
    ensures [m] == States(ph, seed, perTeam, []) && m == Play(ph, Init(ph, seed, perTeam), [])
    ensures PanelsOf([m], mid, Panels(None, None, None, None)) && Score(m) == 0
  {
    hide Fit;
    StatesEmpty(ph, seed, perTeam);
  }

  datatype Picture = Picture(start: Match, panels: Panels, final: Match, replayRoot: bytes, stateRoot: bytes)

  /** as_render up to the drawing: a picture exactly for the replays, with the
      roots of the verifier and the panels the header comment describes. */
  method Render(h: Hash, ph: Physics, b: bytes) returns (r: Option<Picture>)
    ensures r.Some? <==> IsReplay(ph, b)
    ensures r.Some? ==> exists seed: nat, perTeam: byte, frames ::
              && ReplayOf(ph, b, seed, perTeam, frames)
              && Pictures(h, ph, seed, perTeam, frames, r.value)
  {
    hide UnLe, Magic, Framed, FramesIn, EncodeState, Play, Init, Chain, Sha3, IsReplay, ReplayOf, Pictures, PanelsOf,
      States;
    ReplayHeader(ph, b);
    if |b| == 0 || |b| > MAX_REPLAY { return None; }
    if |b| < HEADER_LEN + STATE_LEN { return None; }
    if b[..8] != Magic() { return None; }
    if UnLe(b[8..12]) != 1 { return None; }
    var seed, perTeam := UnLe(b[12..20]), b[20];
    if perTeam < 1 || perTeam > 4 { return None; }
    var tickBytes, framesLen := CTL_LEN * (2 * perTeam), |b| - HEADER_LEN - STATE_LEN;
    var n := framesLen / tickBytes;
    ReplayBody(ph, b, n);
    if framesLen % tickBytes != 0 { return None; }
    FramedIntro(b, n);
    var m, p := Simulate(ph, b, n);
    if m.phase != Done { return None; }
    if m.tick != n { return None; }
    var state := EncodeState(m);
    if state != b[|b| - STATE_LEN..] { return None; }
    r := Some(Picture(Init(ph, seed, perTeam), p, m, Sha3(h, b), Sha3(h, state)));
    PictureIntro(h, ph, b, n, m, p);
  }

  /** What a picture of these frames shows. */
  ghost predicate Pictures(h: Hash, ph: Physics, seed: nat, perTeam: byte, frames: seq<seq<Ctl>>, r: Picture) {
    var s := States(ph, seed, perTeam, frames);
    && r.start == s[0] && r.final == s[|frames|]
    && ShotPanel(s, r.panels.shot) && KillPanel(s, r.panels.kill) && AttackPanel(s, r.panels.attack)
    && MidPanel(s, |frames| / 2, r.panels.mid)
    && r.replayRoot == RootsOf(h, ph, seed, perTeam, frames).replay
    && r.stateRoot == RootsOf(h, ph, seed, perTeam, frames).state
  }

  lemma CompleteCounted(ph: Physics, seed: nat, perTeam: nat, frames: seq<seq<Ctl>>)
    requires Complete(ph, seed, perTeam, frames)
    ensures Counted(States(ph, seed, perTeam, frames))
  {
    hide Play, Init, Complete;
    var s := States(ph, seed, perTeam, frames);
    forall t | 0 <= t < |s| ensures s[t].tick == t {
      if t < |frames| {
        CompletePrefixRunning(ph, seed, perTeam, frames, t);
      } else {
        assert frames[..t] == frames;
        CompleteElim(ph, seed, perTeam, frames);
      }
    }
  }

  lemma PictureIntro(h: Hash, ph: Physics, b: bytes, n: nat, m: Match, p: Panels)
    requires Framed(b, n) && m == Play(ph, Init(ph, UnLe(b[12..20]), b[20]), FramesIn(b, n))
    requires m.phase == Done && m.tick == n && b[|b| - STATE_LEN..] == EncodeState(m)
    requires PanelsOf(States(ph, UnLe(b[12..20]), b[20], FramesIn(b, n)), n / 2, p)
    ensures var (seed, perTeam, frames) := (UnLe(b[12..20]), b[20], FramesIn(b, n));
            && ReplayOf(ph, b, seed, perTeam, frames) && IsReplay(ph, b)
            && Pictures(h, ph, seed, perTeam, frames,
                 Picture(Init(ph, seed, perTeam), p, m, Sha3(h, b), Sha3(h, EncodeState(m))))
  {
    hide UnLe, Region, Play, Init, EncodeState, Magic, FramesIn, ReplayBytes, Pow256, Chain, Sha3, FramesOf,
      ShotPanel, KillPanel, AttackPanel, MidPanel, Counted, Complete;
    var seed, perTeam, frames := UnLe(b[12..20]), b[20], FramesIn(b, n);
    ReplayIntro(ph, b, n);
    FramesInLength(b, n);
    CompleteCounted(ph, seed, perTeam, frames);
    LogEmpty(ph, seed, perTeam);
    assert frames[..0] == [] && frames[..n] == frames;
  }
}
