/** Self-delimiting byte fields: fixed-width integers, fixed-length bytes, and
    length-prefixed bytes. A concatenation of fields of known kinds has one
    reading. */
module Fields {
  import opened Bytes

  datatype Field = Int(width: nat, signed: bool, v: int) | Raw(b: bytes) | Text(b: bytes)

  function U8(v: int): Field { Int(1, false, v) }
  function U32(v: int): Field { Int(4, false, v) }
  function U64(v: int): Field { Int(8, false, v) }
  function I32(v: int): Field { Int(4, true, v) }
  function I64(v: int): Field { Int(8, true, v) }

  /** The value is in range for the field. */
  ghost predicate InRange(f: Field) {
    match f
    case Int(w, signed, v) => if signed then 0 <= 2 * v + Pow256(w) && 2 * v < Pow256(w) else 0 <= v < Pow256(w)
    case Raw(_) => true
    case Text(b) => |b| < Pow256(8)
  }

  /** Two's complement, little-endian; length first for texts. */
  function Encode(f: Field): bytes {
    match f
    case Int(w, _, v) => if 0 <= v then Le(v, w) else if 0 <= v + Pow256(w) then Le(v + Pow256(w), w) else Le(0, w)
    case Raw(b) => b
    case Text(b) => Le(|b|, 8) + b
  }

  predicate Alike(f: Field, g: Field) {
    match f
    case Int(w, signed, _) => g.Int? && g.width == w && g.signed == signed
    case Raw(b) => g.Raw? && |g.b| == |b|
    case Text(_) => g.Text?
  }

  lemma IntSplit(f: Field, g: Field)
    requires f.Int? && Alike(f, g) && InRange(f) && InRange(g) && Encode(f) == Encode(g)
    ensures f == g
  {
    hide Le, Pow256;
    var w := f.width;
    LeInjective(if 0 <= f.v then f.v else f.v + Pow256(w), if 0 <= g.v then g.v else g.v + Pow256(w), w);
  }

  lemma TextSplit(a: bytes, x: bytes, b: bytes, y: bytes)
    requires |a| < Pow256(8) && |b| < Pow256(8) && Le(|a|, 8) + a + x == Le(|b|, 8) + b + y
    ensures a == b && x == y
  {
    hide Le, Pow256;
    Assoc(Le(|a|, 8), a, x);
    Assoc(Le(|b|, 8), b, y);
    SplitAt(Le(|a|, 8), a + x, Le(|b|, 8), b + y);
    LeInjective(|a|, |b|, 8);
    SplitAt(a, x, b, y);
  }

  lemma FieldSplit(f: Field, g: Field, x: bytes, y: bytes)
    requires Alike(f, g) && InRange(f) && InRange(g) && Encode(f) + x == Encode(g) + y
    ensures f == g && x == y
  {
    hide Le, Pow256;
    match f
    case Int(w, signed, v) =>
      SplitAt(Encode(f), x, Encode(g), y);
      IntSplit(f, g);
    case Raw(b) =>
      SplitAt(f.b, x, g.b, y);
    case Text(b) =>
      TextSplit(f.b, x, g.b, y);
  }

  function EncodeAll(fs: seq<Field>): bytes {
    if fs == [] then [] else Encode(fs[0]) + EncodeAll(fs[1..])
  }

  ghost predicate AllInRange(fs: seq<Field>) {
    forall k :: 0 <= k < |fs| ==> InRange(fs[k])
  }

  predicate AllAlike(fs: seq<Field>, gs: seq<Field>) {
    |fs| == |gs| && forall k :: 0 <= k < |fs| ==> Alike(fs[k], gs[k])
  }

  /** Fields of the same kinds followed by anything: read back one by one. */
  lemma {:induction false} FieldsSplit(fs: seq<Field>, gs: seq<Field>, x: bytes, y: bytes)
    requires AllAlike(fs, gs) && AllInRange(fs) && AllInRange(gs) && EncodeAll(fs) + x == EncodeAll(gs) + y
    ensures fs == gs && x == y
    decreases |fs|
  {
    hide Encode, InRange, Alike;
    if fs == [] {
      assert EncodeAll(fs) + x == x && EncodeAll(gs) + y == y;
    } else {
      var f, g := EncodeAll(fs[1..]) + x, EncodeAll(gs[1..]) + y;
      assert Encode(fs[0]) + f == EncodeAll(fs) + x && Encode(gs[0]) + g == EncodeAll(gs) + y;
      FieldSplit(fs[0], gs[0], f, g);
      FieldsSplit(fs[1..], gs[1..], x, y);
      assert fs == [fs[0]] + fs[1..] && gs == [gs[0]] + gs[1..];
    }
  }
}
