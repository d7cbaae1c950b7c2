/** Byte strings, the fixed-width little-endian codec and the hash parameter
    shared by the binary formats of the tools. */
module Bytes {
  type byte = x: int | 0 <= x < 256
  type bytes = seq<byte>

  const HSZ: nat := 32

  /** A SHA3-256 stand-in: `Sha3(h, _)` ranges over every function from byte
      strings to 32-byte digests as h varies. Nothing else is assumed about it;
      theorems that need collision freedom say so for the finite set of
      preimages they hash (`NoCollision`). */
  type Hash = bytes -> bytes

  function Sha3(h: Hash, p: bytes): (d: bytes)
    ensures |d| == HSZ
  {
    (h(p) + seq(HSZ, i => 0))[..HSZ]
  }

  ghost predicate NoCollision(h: Hash, s: set<bytes>) {
    forall p, q :: p in s && q in s && Sha3(h, p) == Sha3(h, q) ==> p == q
  }

  lemma NoCollisionElim(h: Hash, s: set<bytes>, p: bytes, q: bytes)
    requires NoCollision(h, s) && p in s && q in s && Sha3(h, p) == Sha3(h, q)
    ensures p == q
  {
  }

  lemma NoCollisionSubset(h: Hash, s: set<bytes>, t: set<bytes>)
    requires NoCollision(h, t) && s <= t
    ensures NoCollision(h, s)
  {
  }

  /** The bytes of a source-code string literal. */
  function Ascii(s: string): (b: bytes)
    ensures |b| == |s|
    ensures forall i :: 0 <= i < |s| ==> b[i] == s[i] as int % 256
  {
    seq(|s|, i requires 0 <= i < |s| => s[i] as int % 256)
  }

  ghost predicate NulFree(s: bytes) {
    forall i :: 0 <= i < |s| ==> s[i] != 0
  }

  /** Two encodings that start with fields of one width agree field by field. */
  lemma SplitAt(a: bytes, x: bytes, b: bytes, y: bytes)
    requires a + x == b + y
    requires |a| == |b|
    ensures a == b && x == y
  {
    assert a == (a + x)[..|a|] && b == (b + y)[..|a|];
    assert x == (a + x)[|a|..] && y == (b + y)[|a|..];
  }

  lemma Assoc(a: bytes, b: bytes, c: bytes)
    ensures a + b + c == a + (b + c)
  {
  }

  /** A NUL-terminated, NUL-free field has exactly one end. */
  lemma SplitNul(a: bytes, x: bytes, b: bytes, y: bytes)
    requires NulFree(a) && NulFree(b)
    requires a + [0] + x == b + [0] + y
    ensures a == b && x == y
  {
    var s, t := a + [0] + x, b + [0] + y;
    assert s[|a|] == 0 && t[|b|] == 0;
    assert forall i :: 0 <= i < |a| ==> s[i] == a[i];
    assert forall i :: 0 <= i < |b| ==> t[i] == b[i];
    assert |a| == |b|;
    SplitAt(a + [0], x, b + [0], y);
    SplitAt(a, [0], b, [0]);
  }

  /* ---- little-endian integers ---------------------------------------- */

  function Pow256(n: nat): nat
    ensures Pow256(n) > 0
  {
    if n == 0 then 1 else 256 * Pow256(n - 1)
  }

  /** The low `n` bytes of `v`, least significant first. */
  function Le(v: nat, n: nat): (b: bytes)
    ensures |b| == n
    decreases n
  {
    if n == 0 then [] else [v % 256] + Le(v / 256, n - 1)
  }

  function UnLe(b: bytes): (v: nat) {
    if b == [] then 0 else b[0] + 256 * UnLe(b[1..])
  }

  lemma {:induction false} UnLeLe(v: nat, n: nat)
    requires v < Pow256(n)
    ensures UnLe(Le(v, n)) == v
    decreases n
  {
    if n > 0 {
      assert Le(v, n)[1..] == Le(v / 256, n - 1);
      UnLeLe(v / 256, n - 1);
    }
  }

  lemma {:induction false} LeUnLe(b: bytes)
    ensures UnLe(b) < Pow256(|b|)
    ensures Le(UnLe(b), |b|) == b
  {
    if b != [] {
      LeUnLe(b[1..]);
      assert UnLe(b) % 256 == b[0] && UnLe(b) / 256 == UnLe(b[1..]);
      assert [b[0]] + b[1..] == b;
    }
  }

  /** A fixed-width field determines every value in its range. */
  lemma LeInjective(v: nat, w: nat, n: nat)
    requires v < Pow256(n) && w < Pow256(n)
    requires Le(v, n) == Le(w, n)
    ensures v == w
  {
    UnLeLe(v, n);
    UnLeLe(w, n);
  }

  lemma Pow256Values()
    ensures Pow256(1) == 0x100
    ensures Pow256(2) == 0x1_0000
    ensures Pow256(4) == 0x1_0000_0000
    ensures Pow256(8) == 0x1_0000_0000_0000_0000
  {
    assert Pow256(2) == 256 * Pow256(1);
    assert Pow256(3) == 256 * Pow256(2);
    assert Pow256(4) == 256 * Pow256(3);
    assert Pow256(5) == 256 * Pow256(4);
    assert Pow256(6) == 256 * Pow256(5);
    assert Pow256(7) == 256 * Pow256(6);
    assert Pow256(8) == 256 * Pow256(7);
  }
}
