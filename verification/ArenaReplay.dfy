/** The canonical replay container: header, control frames, final state, and the
    three roots. A replay is the serialisation of a complete match; the frame
    region decodes to exactly one frame list. */
module ArenaReplay {
  import opened Bytes
  import opened ArenaSim

  const HEADER_LEN: nat := 21
  const MAX_REPLAY: nat := HEADER_LEN + TICK_LIMIT * MAX_PLANES * CTL_LEN + STATE_LEN
  const FOLD_INTERVAL: nat := 600

  function Magic(): bytes { Ascii("ZDOGREPL") }

  function Header(seed: nat, perTeam: byte): (b: bytes)
    ensures |b| == HEADER_LEN
  {
    Magic() + (Le(1, 4) + (Le(seed, 8) + [perTeam]))
  }

  /* ---- frames -------------------------------------------------------------- */

  function EncodeFrame(ctls: seq<Ctl>): (b: bytes)
    ensures |b| == CTL_LEN * |ctls|
  {
    if ctls == [] then [] else EncodeFrame(ctls[..|ctls| - 1]) + EncodeCtl(ctls[|ctls| - 1])
  }

  function DecodeFrame(b: bytes, num: nat): (ctls: seq<Ctl>)
    requires |b| == CTL_LEN * num
    ensures |ctls| == num
    decreases num
  {
    if num == 0 then []
    else DecodeFrame(b[..CTL_LEN * (num - 1)], num - 1) + [DecodeCtl(b[CTL_LEN * (num - 1)..])]
  }

  lemma {:induction false} DecodeEncodeFrame(ctls: seq<Ctl>)
    ensures DecodeFrame(EncodeFrame(ctls), |ctls|) == ctls
    decreases |ctls|
  {
    hide EncodeCtl, DecodeCtl;
    if ctls != [] {
      var n, b := |ctls|, EncodeFrame(ctls);
      assert b[..CTL_LEN * (n - 1)] == EncodeFrame(ctls[..n - 1]);
      assert b[CTL_LEN * (n - 1)..] == EncodeCtl(ctls[n - 1]);
      DecodeEncodeFrame(ctls[..n - 1]);
      DecodeEncodeCtl(ctls[n - 1]);
    }
  }

  lemma {:induction false} EncodeDecodeFrame(b: bytes, num: nat)
    requires |b| == CTL_LEN * num
    ensures EncodeFrame(DecodeFrame(b, num)) == b
    decreases num
  {
    hide EncodeCtl, DecodeCtl;
    if num > 0 {
      var d := DecodeFrame(b, num);
      assert d[..num - 1] == DecodeFrame(b[..CTL_LEN * (num - 1)], num - 1);
      EncodeDecodeFrame(b[..CTL_LEN * (num - 1)], num - 1);
      EncodeDecodeCtl(b[CTL_LEN * (num - 1)..]);
    }
  }

  ghost predicate FramesOf(frames: seq<seq<Ctl>>, num: nat) {
    forall t :: 0 <= t < |frames| ==> |frames[t]| == num
  }

  function EncodeFrames(frames: seq<seq<Ctl>>): bytes {
    if frames == [] then [] else EncodeFrames(frames[..|frames| - 1]) + EncodeFrame(frames[|frames| - 1])
  }

  /** Bytes taken by n frames of num planes. */
  function Region(n: nat, num: nat): nat {
    if n == 0 then 0 else Region(n - 1, num) + CTL_LEN * num
  }

  lemma {:induction false} RegionProduct(n: nat, num: nat)
    ensures Region(n, num) == n * (CTL_LEN * num)
  {
    if n > 0 {
      RegionProduct(n - 1, num);
      assert n * (CTL_LEN * num) == (n - 1) * (CTL_LEN * num) + CTL_LEN * num;
    }
  }

  function DecodeFrames(b: bytes, num: nat, n: nat): (frames: seq<seq<Ctl>>)
    requires |b| == Region(n, num)
    ensures |frames| == n && forall t :: 0 <= t < n ==> |frames[t]| == num
    decreases n
  {
    if n == 0 then []
    else DecodeFrames(b[..Region(n - 1, num)], num, n - 1) + [DecodeFrame(b[Region(n - 1, num)..], num)]
  }

  lemma {:induction false} DecodeEncodeFrames(frames: seq<seq<Ctl>>, num: nat)
    requires FramesOf(frames, num)
    ensures |EncodeFrames(frames)| == Region(|frames|, num)
    ensures DecodeFrames(EncodeFrames(frames), num, |frames|) == frames
    decreases |frames|
  {
    hide EncodeFrame, DecodeFrame;
    if frames != [] {
      var n := |frames|;
      var init := frames[..n - 1];
      DecodeEncodeFrames(init, num);
      var b := EncodeFrames(frames);
      assert b[..Region(n - 1, num)] == EncodeFrames(init);
      assert b[Region(n - 1, num)..] == EncodeFrame(frames[n - 1]);
      DecodeEncodeFrame(frames[n - 1]);
      assert frames == init + [frames[n - 1]];
    }
  }

  lemma {:induction false} EncodeDecodeFrames(b: bytes, num: nat, n: nat)
    requires |b| == Region(n, num)
    ensures EncodeFrames(DecodeFrames(b, num, n)) == b
    decreases n
  {
    hide EncodeFrame, DecodeFrame;
    if n > 0 {
      var at := Region(n - 1, num);
      EncodeDecodeFrames(b[..at], num, n - 1);
      EncodeDecodeFrame(b[at..], num);
      var f, g := DecodeFrames(b, num, n), DecodeFrames(b[..at], num, n - 1);
      assert f[..n - 1] == g && f[n - 1] == DecodeFrame(b[at..], num);
      assert b == b[..at] + b[at..];
    }
  }

  /* ---- the container ---------------------------------------------------------- */

  function ReplayBytes(ph: Physics, seed: nat, perTeam: byte, frames: seq<seq<Ctl>>): bytes {
    Header(seed, perTeam) + (EncodeFrames(frames) + EncodeState(Play(ph, Init(ph, seed, perTeam), frames)))
  }

  /** A replay: the bytes of one complete match. */
  ghost predicate ReplayOf(ph: Physics, b: bytes, seed: nat, perTeam: byte, frames: seq<seq<Ctl>>) {
    && seed < Pow256(8) && 1 <= perTeam <= 4
    && FramesOf(frames, 2 * perTeam)
    && Complete(ph, seed, perTeam, frames)
    && b == ReplayBytes(ph, seed, perTeam, frames)
  }

  ghost predicate IsReplay(ph: Physics, b: bytes) {
    exists seed: nat, perTeam: byte, frames :: ReplayOf(ph, b, seed, perTeam, frames)
  }

  /** Seed and plane count are read off the header. */
  lemma HeaderFields(seed: nat, perTeam: byte, rest: bytes)
    requires seed < Pow256(8)
    ensures var b := Header(seed, perTeam) + rest;
            && b[..8] == Magic() && UnLe(b[8..12]) == 1 && UnLe(b[12..20]) == seed && b[20] == perTeam
            && b[21..] == rest
  {
    var h := Header(seed, perTeam);
    var b := h + rest;
    hide Le, UnLe, Pow256;
    assert h[..8] == Magic() && h[8..12] == Le(1, 4) && h[12..20] == Le(seed, 8) && h[20] == perTeam;
    assert b[..8] == h[..8] && b[8..12] == h[8..12] && b[12..20] == h[12..20];
    Pow256Values();
    UnLeLe(1, 4);
    UnLeLe(seed, 8);
  }

  /** Accepted bytes have one seed, one plane count and one frame list. */
  lemma ReplayUnique(ph: Physics, b: bytes, seed: nat, perTeam: byte, f: seq<seq<Ctl>>,
                     seed': nat, perTeam': byte, g: seq<seq<Ctl>>)
    requires ReplayOf(ph, b, seed, perTeam, f) && ReplayOf(ph, b, seed', perTeam', g)
    ensures seed == seed' && perTeam == perTeam' && f == g
  {
    hide Header, EncodeFrames, EncodeState, Play, Init, Complete, Pow256;
    var x := EncodeFrames(f) + EncodeState(Play(ph, Init(ph, seed, perTeam), f));
    var y := EncodeFrames(g) + EncodeState(Play(ph, Init(ph, seed', perTeam'), g));
    HeaderFields(seed, perTeam, x);
    HeaderFields(seed', perTeam', y);
    var num := 2 * perTeam;
    DecodeEncodeFrames(f, num);
    DecodeEncodeFrames(g, num);
    RegionProduct(|f|, num);
    RegionProduct(|g|, num);
    SameCount(|f|, |g|, CTL_LEN * num);
    SplitAt(EncodeFrames(f), EncodeState(Play(ph, Init(ph, seed, perTeam), f)),
            EncodeFrames(g), EncodeState(Play(ph, Init(ph, seed', perTeam'), g)));
  }

  lemma SameCount(a: nat, b: nat, k: nat)
    requires k > 0 && a * k == b * k
    ensures a == b
  {
    assert (a - b) * k == 0;
  }

  /* ---- the state-root chain ------------------------------------------------------ */

  function ChainInit(h: Hash, seed: nat, perTeam: byte): bytes {
    Sha3(h, Ascii("zdogfight-replay-v1") + Le(seed, 8) + [perTeam])
  }

  function ChainFold(h: Hash, chain: bytes, m: Match): bytes {
    if m.tick % FOLD_INTERVAL == 0 then Sha3(h, chain + Le(Checksum(m), 8)) else chain
  }

  /** The chain after the frames: folded at every 600th completed tick. */
  function Chain(h: Hash, ph: Physics, seed: nat, perTeam: byte, frames: seq<seq<Ctl>>): bytes {
    if frames == [] then ChainInit(h, seed, perTeam)
    else ChainFold(h, Chain(h, ph, seed, perTeam, frames[..|frames| - 1]), Play(ph, Init(ph, seed, perTeam), frames))
  }

  datatype Roots = Roots(replay: bytes, state: bytes, chain: bytes)

  function RootsOf(h: Hash, ph: Physics, seed: nat, perTeam: byte, frames: seq<seq<Ctl>>): Roots {
    Roots(Sha3(h, ReplayBytes(ph, seed, perTeam, frames)),
          Sha3(h, EncodeState(Play(ph, Init(ph, seed, perTeam), frames))),
          Chain(h, ph, seed, perTeam, frames))
  }
}
