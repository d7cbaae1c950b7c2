/** What the state-root chain commits to: the seed, the plane count and the state
    checksum after every 600th tick, and nothing else. */
module ArenaChain {
  import opened Bytes
  import opened ArenaSim
  import opened ArenaReplay

  const U64: nat := 0x1_0000_0000_0000_0000

  /* ---- the checksum tells one-byte changes apart -------------------------------- */

  const FNV_PRIME: nat := 1099511628211
  /** The inverse of the prime modulo 2^64. */
  const FNV_INVERSE: nat := 14886173955864302971

  lemma OddFactor(a: nat, b: nat)
    requires a < U64 && b < U64 && a * FNV_PRIME % U64 == b * FNV_PRIME % U64
    ensures a == b
  {
    Unscale(a);
    Unscale(b);
    assert a * FNV_PRIME % U64 * FNV_INVERSE % U64 == b * FNV_PRIME % U64 * FNV_INVERSE % U64;
  }

  lemma Unscale(a: nat)
    requires a < U64
    ensures a * FNV_PRIME % U64 * FNV_INVERSE % U64 == a
  {
    var q, r := a * FNV_PRIME / U64, a * FNV_PRIME % U64;
    var t := FNV_PRIME * FNV_INVERSE / U64;
    assert FNV_PRIME * FNV_INVERSE == t * U64 + 1;
    assert r == a * FNV_PRIME - q * U64;
    assert r * FNV_INVERSE == (a * t - q * FNV_INVERSE) * U64 + a;
    Remainder(a * t - q * FNV_INVERSE, a);
  }

  lemma Remainder(k: int, a: nat)
    requires a < U64
    ensures (k * U64 + a) % U64 == a
  {
  }

  function Pow2(n: nat): (p: nat)
    ensures p > 0
  {
    if n == 0 then 1 else 2 * Pow2(n - 1)
  }

  lemma {:induction false} XorBound(a: nat, b: nat, n: nat)
    ensures Xor(a, b, n) < Pow2(n)
  {
    if n > 0 { XorBound(a / 2, b / 2, n - 1); }
  }

  lemma XorStep(a: nat, x: nat, n: nat)
    requires n > 0
    ensures Xor(a, x, n) % 2 == (a + x) % 2 && Xor(a, x, n) / 2 == Xor(a / 2, x / 2, n - 1)
  {
    hide Xor;
    XorUnfolds(a, x, n);
    BitThenRest((a + x) % 2, Xor(a / 2, x / 2, n - 1));
  }

  lemma XorUnfolds(a: nat, x: nat, n: nat)
    requires n > 0
    ensures Xor(a, x, n) == (a + x) % 2 + 2 * Xor(a / 2, x / 2, n - 1)
  {
  }

  lemma BitThenRest(bit: nat, rest: nat)
    requires bit < 2
    ensures (bit + 2 * rest) % 2 == bit && (bit + 2 * rest) / 2 == rest
  {
  }

  lemma SameParity(a: nat, b: nat, x: nat)
    requires (a + x) % 2 == (b + x) % 2
    ensures a % 2 == b % 2
  {
  }

  lemma HalfBound(a: nat, n: nat)
    requires n > 0 && a < Pow2(n)
    ensures a / 2 < Pow2(n - 1)
  {
  }

  lemma {:induction false} XorCancels(a: nat, b: nat, x: nat, n: nat)
    requires a < Pow2(n) && b < Pow2(n) && Xor(a, x, n) == Xor(b, x, n)
    ensures a == b
  {
    if n > 0 {
      hide Xor, Pow2;
      XorStep(a, x, n);
      XorStep(b, x, n);
      SameParity(a, b, x);
      HalfBound(a, n);
      HalfBound(b, n);
      XorCancels(a / 2, b / 2, x / 2, n - 1);
    }
  }

  lemma {:induction false} XorCommutes(a: nat, b: nat, n: nat)
    ensures Xor(a, b, n) == Xor(b, a, n)
  {
    if n > 0 { XorCommutes(a / 2, b / 2, n - 1); }
  }

  lemma ByteBits()
    ensures Pow2(8) == 256
  {
    assert Pow2(4) == 16;
  }

  lemma Xor8Parts(a: nat, x: byte)
    requires a < U64
    ensures Xor8(a, x) < U64 && Xor8(a, x) / 256 == a / 256 && Xor8(a, x) % 256 == Xor(a % 256, x, 8)
  {
    hide Xor;
    ByteBits();
    XorBound(a % 256, x, 8);
  }

  lemma Xor8Cancels(a: nat, b: nat, x: byte)
    requires a < U64 && b < U64 && Xor8(a, x) == Xor8(b, x)
    ensures a == b
  {
    hide Xor8, Xor;
    Xor8Parts(a, x);
    Xor8Parts(b, x);
    ByteBits();
    XorCancels(a % 256, b % 256, x, 8);
  }

  lemma Xor8Tells(a: nat, x: byte, y: byte)
    requires a < U64 && Xor8(a, x) == Xor8(a, y)
    ensures x == y
  {
    hide Xor8, Xor;
    Xor8Parts(a, x);
    Xor8Parts(a, y);
    XorCommutes(a % 256, x, 8);
    XorCommutes(a % 256, y, 8);
    ByteBits();
    XorCancels(x, y, a % 256, 8);
  }

  function Mixed(a: nat, x: byte): nat { Xor8(a, x) * FNV_PRIME % U64 }

  lemma FnvStep(s: bytes, a: nat)
    requires s != []
    ensures Fnv(s, a) == Fnv(s[1..], Mixed(a, s[0])) && Mixed(a, s[0]) < U64
  {
    hide Xor8;
  }

  lemma {:induction false} FnvBound(s: bytes, a: nat)
    requires a < U64
    ensures Fnv(s, a) < U64
    decreases |s|
  {
    hide Mixed, Xor8;
    if s != [] {
      FnvStep(s, a);
      FnvBound(s[1..], Mixed(a, s[0]));
    }
  }

  /** Equal tails never bring two running values back together. */
  lemma {:induction false} FnvKeepsApart(s: bytes, a: nat, b: nat)
    requires a < U64 && b < U64 && a != b
    ensures Fnv(s, a) != Fnv(s, b)
    decreases |s|
  {
    hide Xor8, Fnv;
    if s == [] {
      FnvEmpty(a);
      FnvEmpty(b);
    } else {
      FnvStep(s, a);
      FnvStep(s, b);
      Xor8Parts(a, s[0]);
      Xor8Parts(b, s[0]);
      if Mixed(a, s[0]) == Mixed(b, s[0]) {
        OddFactor(Xor8(a, s[0]), Xor8(b, s[0]));
        Xor8Cancels(a, b, s[0]);
      }
      FnvKeepsApart(s[1..], Mixed(a, s[0]), Mixed(b, s[0]));
    }
  }

  lemma FnvEmpty(a: nat)
    ensures Fnv([], a) == a
  {
  }

  lemma {:induction false} FnvOneByte(s: bytes, t: bytes, i: nat, a: nat)
    requires |s| == |t| && i < |s| && s[i] != t[i] && a < U64
    requires forall j :: 0 <= j < |s| && j != i ==> s[j] == t[j]
    ensures Fnv(s, a) != Fnv(t, a)
    decreases |s|
  {
    hide Xor8, Fnv;
    FnvStep(s, a);
    FnvStep(t, a);
    if i == 0 {
      assert s[1..] == t[1..];
      Xor8Parts(a, s[0]);
      Xor8Parts(a, t[0]);
      if Mixed(a, s[0]) == Mixed(a, t[0]) {
        OddFactor(Xor8(a, s[0]), Xor8(a, t[0]));
        Xor8Tells(a, s[0], t[0]);
      }
      FnvKeepsApart(s[1..], Mixed(a, s[0]), Mixed(a, t[0]));
    } else {
      FnvOneByte(s[1..], t[1..], i - 1, Mixed(a, s[0]));
    }
  }

  /** States whose encodings differ in one byte have different checksums. */
  lemma ChecksumTells(m: Match, n: Match, i: nat)
    requires i < STATE_LEN && EncodeState(m)[i] != EncodeState(n)[i]
    requires forall j :: 0 <= j < STATE_LEN && j != i ==> EncodeState(m)[j] == EncodeState(n)[j]
    ensures Checksum(m) != Checksum(n)
  {
    hide EncodeState, Fnv;
    FnvOneByte(EncodeState(m), EncodeState(n), i, 14695981039346656037);
  }

  lemma ChecksumBound(m: Match)
    ensures Checksum(m) < U64
  {
    hide EncodeState, Fnv;
    FnvBound(EncodeState(m), 14695981039346656037);
  }

  /* ---- the chain as the fold of a list of checksums -------------------------------- */

  /** chain0 = sha3("zdogfight-replay-v1" || seed || planes) */
  function Opening(seed: nat, perTeam: byte): (b: bytes)
    ensures |b| == 28
  {
    Ascii("zdogfight-replay-v1") + (Le(seed, 8) + [perTeam])
  }

  /** chainK = sha3(chainK-1 || checksum) */
  function Fold(h: Hash, seed: nat, perTeam: byte, sums: seq<nat>): (c: bytes)
    ensures |c| == HSZ
    decreases |sums|
  {
    Sha3(h, if sums == [] then Opening(seed, perTeam)
            else Fold(h, seed, perTeam, sums[..|sums| - 1]) + Le(sums[|sums| - 1], 8))
  }

  /** Everything a chain hashes. */
  ghost function Hashed(h: Hash, seed: nat, perTeam: byte, sums: seq<nat>): set<bytes>
    decreases |sums|
  {
    if sums == [] then {Opening(seed, perTeam)}
    else Hashed(h, seed, perTeam, sums[..|sums| - 1])
         + {Fold(h, seed, perTeam, sums[..|sums| - 1]) + Le(sums[|sums| - 1], 8)}
  }

  ghost predicate Words(sums: seq<nat>) {
    forall i :: 0 <= i < |sums| ==> sums[i] < U64
  }

  /** Equal chains have equal openings and equal checksum lists. */
  lemma {:induction false} FoldInjective(h: Hash, seed: nat, n: byte, s: seq<nat>, seed': nat, n': byte, t: seq<nat>)
    requires seed < U64 && seed' < U64 && Words(s) && Words(t)
    requires NoCollision(h, Hashed(h, seed, n, s) + Hashed(h, seed', n', t))
    requires Fold(h, seed, n, s) == Fold(h, seed', n', t)
    ensures seed == seed' && n == n' && s == t
    decreases |s|
  {
    hide Sha3, Le, Pow256, NoCollision, Opening;
    var all := Hashed(h, seed, n, s) + Hashed(h, seed', n', t);
    var p, q := LastInput(h, seed, n, s), LastInput(h, seed', n', t);
    LastHashed(h, seed, n, s);
    LastHashed(h, seed', n', t);
    NoCollisionElim(h, all, p, q);
    if s == [] {
      assert t == [];
      OpeningInjective(seed, n, seed', n');
    } else {
      assert t != [];
      var s0, t0 := s[..|s| - 1], t[..|t| - 1];
      SplitAt(Fold(h, seed, n, s0), Le(s[|s| - 1], 8), Fold(h, seed', n', t0), Le(t[|t| - 1], 8));
      Pow256Values();
      LeInjective(s[|s| - 1], t[|t| - 1], 8);
      NoCollisionSubset(h, Hashed(h, seed, n, s0) + Hashed(h, seed', n', t0), all);
      FoldInjective(h, seed, n, s0, seed', n', t0);
      assert s == s0 + [s[|s| - 1]] && t == t0 + [t[|t| - 1]];
    }
  }

  ghost function LastInput(h: Hash, seed: nat, perTeam: byte, sums: seq<nat>): bytes {
    if sums == [] then Opening(seed, perTeam)
    else Fold(h, seed, perTeam, sums[..|sums| - 1]) + Le(sums[|sums| - 1], 8)
  }

  lemma LastHashed(h: Hash, seed: nat, perTeam: byte, sums: seq<nat>)
    ensures LastInput(h, seed, perTeam, sums) in Hashed(h, seed, perTeam, sums)
    ensures Fold(h, seed, perTeam, sums) == Sha3(h, LastInput(h, seed, perTeam, sums))
    ensures |LastInput(h, seed, perTeam, sums)| == if sums == [] then 28 else 40
  {
    hide Sha3, Le, Opening;
  }

  lemma OpeningInjective(seed: nat, n: byte, seed': nat, n': byte)
    requires seed < U64 && seed' < U64 && Opening(seed, n) == Opening(seed', n')
    ensures seed == seed' && n == n'
  {
    hide Le, Pow256, Ascii;
    var a := Ascii("zdogfight-replay-v1");
    SplitAt(a, Le(seed, 8) + [n], a, Le(seed', 8) + [n']);
    SplitAt(Le(seed, 8), [n], Le(seed', 8), [n']);
    Pow256Values();
    LeInjective(seed, seed', 8);
    assert [n][0] == [n'][0];
  }

  /* ---- the chain of a match ------------------------------------------------------------ */

  /** The checksum after each tick that is a multiple of 600. */
  ghost function Sums(ph: Physics, seed: nat, perTeam: byte, frames: seq<seq<Ctl>>): (sums: seq<nat>)
    decreases |frames|
  {
    if frames == [] then []
    else
      var m := Play(ph, Init(ph, seed, perTeam), frames);
      Sums(ph, seed, perTeam, frames[..|frames| - 1]) + (if m.tick % 600 == 0 then [Checksum(m)] else [])
  }

  lemma {:induction false} SumsAreWords(ph: Physics, seed: nat, perTeam: byte, frames: seq<seq<Ctl>>)
    ensures Words(Sums(ph, seed, perTeam, frames))
    decreases |frames|
  {
    hide Play, Init, Checksum;
    if frames != [] {
      SumsAreWords(ph, seed, perTeam, frames[..|frames| - 1]);
      ChecksumBound(Play(ph, Init(ph, seed, perTeam), frames));
    }
  }

  /** The chain is the fold of those checksums. */
  lemma {:induction false} ChainIsFold(h: Hash, ph: Physics, seed: nat, perTeam: byte, frames: seq<seq<Ctl>>)
    ensures Chain(h, ph, seed, perTeam, frames) == Fold(h, seed, perTeam, Sums(ph, seed, perTeam, frames))
    decreases |frames|
  {
    hide Play, Init, Checksum, Sha3, Le, Ascii;
    if frames == [] {
      Assoc(Ascii("zdogfight-replay-v1"), Le(seed, 8), [perTeam]);
    } else {
      var front := frames[..|frames| - 1];
      ChainIsFold(h, ph, seed, perTeam, front);
      var m, sums := Play(ph, Init(ph, seed, perTeam), frames), Sums(ph, seed, perTeam, front);
      if m.tick % 600 == 0 {
        assert (sums + [Checksum(m)])[..|sums|] == sums;
      } else {
        assert sums + [] == sums;
      }
    }
  }

  ghost function ChainInputs(h: Hash, ph: Physics, seed: nat, perTeam: byte, frames: seq<seq<Ctl>>): set<bytes> {
    Hashed(h, seed, perTeam, Sums(ph, seed, perTeam, frames))
  }

  /** Two runs have one chain exactly if they have one seed, one plane count and
      the same checksums at the fold points. */
  lemma ChainIff(h: Hash, ph: Physics, seed: nat, n: byte, f: seq<seq<Ctl>>, seed': nat, n': byte, g: seq<seq<Ctl>>)
    requires seed < U64 && seed' < U64
    requires NoCollision(h, ChainInputs(h, ph, seed, n, f) + ChainInputs(h, ph, seed', n', g))
    ensures Chain(h, ph, seed, n, f) == Chain(h, ph, seed', n', g) <==>
            seed == seed' && n == n' && Sums(ph, seed, n, f) == Sums(ph, seed', n', g)
  {
    hide Chain, Sums, Hashed, NoCollision, Fold;
    ChainIsFold(h, ph, seed, n, f);
    ChainIsFold(h, ph, seed', n', g);
    if Chain(h, ph, seed, n, f) == Chain(h, ph, seed', n', g) {
      SumsAreWords(ph, seed, n, f);
      SumsAreWords(ph, seed', n', g);
      FoldInjective(h, seed, n, Sums(ph, seed, n, f), seed', n', Sums(ph, seed', n', g));
    }
  }

  /** The state after the first k frames. */
  function StateAt(ph: Physics, seed: nat, perTeam: byte, frames: seq<seq<Ctl>>, k: nat): Match
    requires k <= |frames|
  {
    Play(ph, Init(ph, seed, perTeam), frames[..k])
  }

  /** While every frame counts a tick, the j-th fold is after frame 600 (j + 1). */
  lemma {:induction false} SumsAt(ph: Physics, seed: nat, perTeam: byte, frames: seq<seq<Ctl>>)
    requires Play(ph, Init(ph, seed, perTeam), frames).tick == |frames|
    ensures var sums := Sums(ph, seed, perTeam, frames);
            && |sums| == |frames| / 600
            && forall j :: 0 <= j < |sums| ==>
                 sums[j] == Checksum(StateAt(ph, seed, perTeam, frames, 600 * (j + 1)))
    decreases |frames|
  {
    hide Play, Init, Checksum;
    if frames != [] {
      var front := frames[..|frames| - 1];
      TickedPrefix(ph, seed, perTeam, frames);
      SumsAt(ph, seed, perTeam, front);
      var sums := Sums(ph, seed, perTeam, frames);
      forall j | 0 <= j < |sums|
        ensures 600 * (j + 1) <= |frames| && sums[j] == Checksum(StateAt(ph, seed, perTeam, frames, 600 * (j + 1)))
      {
        if j < |Sums(ph, seed, perTeam, front)| {
          assert front[..600 * (j + 1)] == frames[..600 * (j + 1)];
        } else {
          assert frames[..|frames|] == frames;
        }
      }
    }
  }

  lemma TickedPrefix(ph: Physics, seed: nat, perTeam: byte, frames: seq<seq<Ctl>>)
    requires frames != [] && Play(ph, Init(ph, seed, perTeam), frames).tick == |frames|
    ensures Play(ph, Init(ph, seed, perTeam), frames[..|frames| - 1]).tick == |frames| - 1
  {
    hide Fit;
    PlayTicks(ph, Init(ph, seed, perTeam), frames[..|frames| - 1]);
  }

  ghost predicate SameFolds(ph: Physics, seed: nat, perTeam: byte, f: seq<seq<Ctl>>, g: seq<seq<Ctl>>)
    requires |f| == |g|
  {
    forall k :: 0 < k <= |f| && k % 600 == 0 ==>
      Checksum(StateAt(ph, seed, perTeam, f, k)) == Checksum(StateAt(ph, seed, perTeam, g, k))
  }

  /** Two recorded matches of one length print one chain exactly if they have one
      seed, one plane count and equal state checksums after every 600th tick. */
  lemma ChainOfReplays(h: Hash, ph: Physics, b: bytes, seed: nat, n: byte, f: seq<seq<Ctl>>,
                       c: bytes, seed': nat, n': byte, g: seq<seq<Ctl>>)
    requires ReplayOf(ph, b, seed, n, f) && ReplayOf(ph, c, seed', n', g) && |f| == |g|
    requires NoCollision(h, ChainInputs(h, ph, seed, n, f) + ChainInputs(h, ph, seed', n', g))
    ensures RootsOf(h, ph, seed, n, f).chain == RootsOf(h, ph, seed', n', g).chain <==>
            seed == seed' && n == n' && SameFolds(ph, seed, n, f, g)
  {
    hide Chain, Sums, NoCollision, ChainInputs, ReplayBytes, Play, Init, Checksum;
    Pow256Values();
    ChainIff(h, ph, seed, n, f, seed', n', g);
    SumsAt(ph, seed, n, f);
    SumsAt(ph, seed', n', g);
    if seed == seed' && n == n' {
      var s, t := Sums(ph, seed, n, f), Sums(ph, seed, n, g);
      if s == t {
        forall k | 0 < k <= |f| && k % 600 == 0
          ensures Checksum(StateAt(ph, seed, n, f, k)) == Checksum(StateAt(ph, seed, n, g, k))
        {
          var j := k / 600 - 1;
          assert k == 600 * (j + 1) && s[j] == t[j];
        }
      }
      if SameFolds(ph, seed, n, f, g) {
        forall j | 0 <= j < |s| ensures s[j] == t[j] {
          var k := 600 * (j + 1);
          assert k % 600 == 0;
        }
      }
    }
  }

  ghost function Final(ph: Physics, seed: nat, perTeam: byte, frames: seq<seq<Ctl>>): bytes {
    EncodeState(Play(ph, Init(ph, seed, perTeam), frames))
  }

  /** The replay root tells recorded matches apart, the state root their final states. */
  lemma RootsTell(h: Hash, ph: Physics, b: bytes, seed: nat, n: byte, f: seq<seq<Ctl>>,
                  c: bytes, seed': nat, n': byte, g: seq<seq<Ctl>>)
    requires ReplayOf(ph, b, seed, n, f) && ReplayOf(ph, c, seed', n', g)
    ensures NoCollision(h, {b, c}) ==>
      (RootsOf(h, ph, seed, n, f).replay == RootsOf(h, ph, seed', n', g).replay <==>
       seed == seed' && n == n' && f == g)
    ensures NoCollision(h, {Final(ph, seed, n, f), Final(ph, seed', n', g)}) ==>
      (RootsOf(h, ph, seed, n, f).state == RootsOf(h, ph, seed', n', g).state <==>
       Final(ph, seed, n, f) == Final(ph, seed', n', g))
  {
    hide Sha3, Chain, Play, Init, EncodeState, ReplayBytes, Complete, FramesOf, Pow256, NoCollision;
    var x, y := Final(ph, seed, n, f), Final(ph, seed', n', g);
    if NoCollision(h, {b, c}) && Sha3(h, b) == Sha3(h, c) {
      NoCollisionElim(h, {b, c}, b, c);
      ReplayUnique(ph, b, seed, n, f, seed', n', g);
    }
    if NoCollision(h, {x, y}) && Sha3(h, x) == Sha3(h, y) {
      NoCollisionElim(h, {x, y}, x, y);
    }
  }
}
