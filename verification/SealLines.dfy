/** The manifest line codec: lowercase hex, canonical decimal, and the SECTION,
    TREE/ROOT and per-file lines. Writer and reader are proved to be one
    encoding: a physical line parses to a record exactly when it is that
    record's line. */
module SealLines {
  import opened Bytes
  import opened Wrappers
  import opened Decimal
  import opened SealPath

  const LF: byte := 10
  const CR: byte := 13
  const U64_MAX: nat := 0xFFFF_FFFF_FFFF_FFFF

  function Sep(): bytes { [32, 32] }
  function RootWord(): bytes { Ascii("ROOT") }
  function TreeWord(): bytes { Ascii("TREE") }
  function SectionWord(): bytes { Ascii("SECTION") }

  /* ---- hex -------------------------------------------------------------- */

  function HexDigit(n: nat): byte
    requires n < 16
  {
    if n < 10 then 48 + n else 87 + n
  }

  predicate IsHexByte(c: byte) { 48 <= c <= 57 || 97 <= c <= 102 }

  /** zcl_hex_encode */
  function Hex(d: bytes): (r: bytes)
    ensures |r| == 2 * |d|
    ensures forall i :: 0 <= i < |r| ==> IsHexByte(r[i])
  {
    if d == [] then [] else [HexDigit(d[0] / 16), HexDigit(d[0] % 16)] + Hex(d[1..])
  }

  lemma {:induction false} HexInjective(a: bytes, b: bytes)
    requires Hex(a) == Hex(b)
    ensures a == b
  {
    assert |a| == |b|;
    if a != [] {
      var x: bytes, y: bytes := [HexDigit(a[0] / 16), HexDigit(a[0] % 16)], [HexDigit(b[0] / 16), HexDigit(b[0] % 16)];
      SplitAt(x, Hex(a[1..]), y, Hex(b[1..]));
      assert x[0] == y[0] && x[1] == y[1];
      HexInjective(a[1..], b[1..]);
      assert a == [a[0]] + a[1..] && b == [b[0]] + b[1..];
    }
  }

  predicate IsHex64(s: bytes) {
    |s| == 2 * HSZ && forall i :: 0 <= i < |s| ==> IsHexByte(s[i])
  }

  /* ---- canonical decimal -------------------------------------------------- */

  /** parse_u64_field: value and the bytes after it. */
  function ParseU64(p: bytes): Option<(nat, bytes)> {
    var n := DigitRun(p);
    if n == 0 || (n > 1 && p[0] == 48) || DecValue(p[..n]) > U64_MAX then None
    else Some((DecValue(p[..n]), p[n..]))
  }

  /** The source's digit loop, with its overflow guard, computes ParseU64. */
  method ParseU64Field(p: bytes) returns (r: Option<(nat, bytes)>)
    ensures r == ParseU64(p)
  {
    var total := DigitRun(p);
    if |p| == 0 || !IsDigit(p[0]) { return None; }
    if p[0] == 48 && |p| > 1 && IsDigit(p[1]) {
      return None;
    }
    var v, i := 0, 0;
    while i < |p| && IsDigit(p[i])
      invariant 0 <= i <= total
      invariant v == DecValue(p[..i]) && v <= U64_MAX
    {
      var d := p[i] - 48;
      assert p[..i + 1][..i] == p[..i];
      if v > (U64_MAX - d) / 10 {
        DecPrefix(p[..total], i + 1);
        assert p[..total][..i + 1] == p[..i + 1];
        return None;
      }
      v := v * 10 + d;
      i := i + 1;
    }
    return Some((v, p[i..]));
  }

  /** One value, one spelling. */
  lemma ParseU64Iff(p: bytes, v: nat, rest: bytes)
    requires rest == [] || !IsDigit(rest[0])
    ensures ParseU64(p) == Some((v, rest)) <==> v <= U64_MAX && p == Dec(v) + rest
  {
    hide Dec, DecValue, DigitRun;
    if ParseU64(p) == Some((v, rest)) {
      var n := DigitRun(p);
      assert p == p[..n] + p[n..];
      DecDecValue(p[..n]);
    }
    if v <= U64_MAX && p == Dec(v) + rest {
      DigitRunSplit(Dec(v), rest);
      assert p[..|Dec(v)|] == Dec(v) && p[|Dec(v)|..] == rest;
      DecValueDec(v);
    }
  }

  /* ---- lines --------------------------------------------------------------- */

  /** strcspn(p, "\r\n") */
  function LineRest(p: bytes): (n: nat)
    ensures n <= |p|
    ensures forall i :: 0 <= i < n ==> p[i] != LF && p[i] != CR
    ensures n < |p| ==> p[n] == LF || p[n] == CR
  {
    if p == [] || p[0] == LF || p[0] == CR then 0 else 1 + LineRest(p[1..])
  }

  predicate StartsWith(p: bytes, lit: bytes) { lit <= p }

  /** skip_exact */
  function Skip(p: bytes, lit: bytes): (r: Option<bytes>)
    ensures r.Some? <==> StartsWith(p, lit)
    ensures r.Some? ==> p == lit + r.value
  {
    if StartsWith(p, lit) then Some(p[|lit|..]) else None
  }

  lemma SkipConcat(lit: bytes, rest: bytes)
    ensures Skip(lit + rest, lit) == Some(rest)
  {
    assert (lit + rest)[..|lit|] == lit && (lit + rest)[|lit|..] == rest;
  }

  /** A line the physical-line check lets through: one LF, at the end, no CR. */
  ghost predicate PhysicalLine(line: bytes) {
    |line| > 0 && line[|line| - 1] == LF && forall i :: 0 <= i < |line| - 1 ==> line[i] != LF && line[i] != CR
  }

  lemma LineRestPhysical(line: bytes)
    requires PhysicalLine(line)
    ensures LineRest(line) == |line| - 1
  {
  }

  lemma PhysicalTail(line: bytes, a: bytes, b: bytes)
    requires PhysicalLine(line) && line == a + b && |b| > 0
    ensures PhysicalLine(b)
  {
    assert forall i :: 0 <= i < |b| ==> b[i] == line[|a| + i];
  }

  datatype Parse<T> = NotThis | Malformed | Parsed(rec: T)

  datatype Section = Section(name: bytes, count: nat, hex: bytes)
  datatype FileLine = FileLine(path: bytes, hex: bytes)

  ghost predicate GoodSection(s: Section) {
    Sealable(s.name) && s.count <= U64_MAX && IsHex64(s.hex)
  }

  ghost predicate GoodFileLine(f: FileLine) {
    Sealable(f.path) && IsHex64(f.hex)
  }

  /** section_line_format */
  function SectionLine(s: Section): bytes {
    SectionWord() + (Sep() + (Dec(s.count) + (Sep() + (Dec(|s.name|) + (Sep() + (s.hex + (Sep() + (s.name + [LF]))))))))
  }

  function HexLine(keyword: bytes, hex: bytes): bytes {
    keyword + (Sep() + (hex + [LF]))
  }

  function FileLineText(f: FileLine): bytes {
    f.hex + (Sep() + (f.path + [LF]))
  }

  /** The field parser shared by the three kinds: 64 hex, then the rest. */
  function TakeHex(p: bytes): (r: Option<(bytes, bytes)>)
  {
    if |p| >= 2 * HSZ && IsHex64(p[..2 * HSZ]) then Some((p[..2 * HSZ], p[2 * HSZ..])) else None
  }

  /** section_line_parse */
  function ParseSection(line: bytes): Parse<Section> {
    match Skip(line, SectionWord())
    case None => NotThis
    case Some(p1) => match Skip(p1, Sep())
      case None => Malformed
      case Some(p2) => match ParseU64(p2)
        case None => Malformed
        case Some((nfiles, p3)) => match Skip(p3, Sep())
          case None => Malformed
          case Some(p4) => match ParseU64(p4)
            case None => Malformed
            case Some((plen, p5)) => match Skip(p5, Sep())
              case None => Malformed
              case Some(p6) => ParseSectionTail(nfiles, plen, p6)
  }

  function ParseSectionTail(nfiles: nat, plen: nat, p: bytes): Parse<Section> {
    if LineRest(p) < 2 * HSZ then Malformed
    else match TakeHex(p)
      case None => Malformed
      case Some((hex, p1)) => match Skip(p1, Sep())
        case None => Malformed
        case Some(p2) =>
          if plen == 0 || plen >= PATH_MAX then Malformed
          else if LineRest(p2) != plen then Malformed
          else if !Sealable(p2[..plen]) then Malformed
          else Parsed(Section(p2[..plen], nfiles, hex))
  }

  /** hex_line_parse */
  function ParseHexLine(line: bytes, keyword: bytes): Parse<bytes> {
    match Skip(line, keyword)
    case None => NotThis
    case Some(p1) => match Skip(p1, Sep())
      case None => Malformed
      case Some(p2) =>
        if LineRest(p2) != 2 * HSZ then Malformed
        else if !IsHex64(p2[..2 * HSZ]) then Malformed
        else Parsed(p2[..2 * HSZ])
  }

  /** file_line_parse */
  function ParseFileLine(line: bytes): Parse<FileLine> {
    if LineRest(line) < 2 * HSZ then NotThis
    else match TakeHex(line)
      case None => NotThis
      case Some((hex, p1)) => match Skip(p1, Sep())
        case None => Malformed
        case Some(p2) =>
          var plen := LineRest(p2);
          if plen == 0 || plen >= PATH_MAX || !Sealable(p2[..plen]) then Malformed
          else Parsed(FileLine(p2[..plen], hex))
  }

  /* ---- one parse of every line ------------------------------------------------ */

  lemma TakeHexConcat(hex: bytes, rest: bytes)
    requires IsHex64(hex)
    ensures TakeHex(hex + rest) == Some((hex, rest))
  {
    assert (hex + rest)[..2 * HSZ] == hex && (hex + rest)[2 * HSZ..] == rest;
  }

  lemma TakeHexElim(p: bytes)
    requires TakeHex(p).Some?
    ensures p == TakeHex(p).value.0 + TakeHex(p).value.1 && IsHex64(TakeHex(p).value.0)
  {
  }

  /** What is left of a physical line after a field ends with its path. */
  lemma PathTail(p: bytes)
    requires PhysicalLine(p)
    ensures LineRest(p) == |p| - 1 && p == p[..|p| - 1] + [LF]
  {
    LineRestPhysical(p);
  }

  lemma PathText(name: bytes)
    requires Sealable(name)
    ensures LineRest(name + [LF]) == |name| && (name + [LF])[..|name|] == name && |name| > 0
  {
    assert IsComponent(name, 0, 0) || |name| > 0;
    assert Printable(name);
    assert forall i :: 0 <= i < |name| ==> (name + [LF])[i] == name[i] && name[i] != LF && name[i] != CR;
    assert (name + [LF])[|name|] == LF;
  }

  lemma ParseSectionTailIff(nfiles: nat, plen: nat, p: bytes, s: Section)
    requires PhysicalLine(p)
    ensures ParseSectionTail(nfiles, plen, p) == Parsed(s) <==>
            Sealable(s.name) && IsHex64(s.hex) && s.count == nfiles && |s.name| == plen
            && p == s.hex + (Sep() + (s.name + [LF]))
  {
    hide Sealable, LineRest, IsHex64, PhysicalLine, TakeHex;
    LineRestPhysical(p);
    if ParseSectionTail(nfiles, plen, p) == Parsed(s) {
      TakeHexElim(p);
      var p1 := TakeHex(p).value.1;
      var p2 := Skip(p1, Sep()).value;
      assert p == s.hex + p1 && p1 == Sep() + p2;
      assert p2 != [] by { assert LineRest(p2) == plen; }
      assert p == (s.hex + Sep()) + p2;
      PhysicalTail(p, s.hex + Sep(), p2);
      PathTail(p2);
    }
    if Sealable(s.name) && IsHex64(s.hex) && s.count == nfiles && |s.name| == plen
       && p == s.hex + (Sep() + (s.name + [LF])) {
      TakeHexConcat(s.hex, Sep() + (s.name + [LF]));
      SkipConcat(Sep(), s.name + [LF]);
      PathText(s.name);
      SealableShort(s.name);
      assert |s.hex| == 2 * HSZ by { Hex64Length(s.hex); }
    }
  }

  lemma Hex64Length(s: bytes)
    requires IsHex64(s)
    ensures |s| == 2 * HSZ
  {
  }

  /** SECTION lines: one record, one spelling. */
  lemma SectionLineIff(line: bytes, s: Section)
    requires PhysicalLine(line)
    ensures ParseSection(line) == Parsed(s) <==> GoodSection(s) && line == SectionLine(s)
  {
    hide ParseSection, SectionLine, GoodSection, PhysicalLine;
    if ParseSection(line) == Parsed(s) { SectionLineElim(line, s); }
    if GoodSection(s) && line == SectionLine(s) { SectionLineIntro(line, s); }
  }

  lemma SectionLineElim(line: bytes, s: Section)
    requires PhysicalLine(line) && ParseSection(line) == Parsed(s)
    ensures GoodSection(s) && line == SectionLine(s)
  {
    hide Sealable, LineRest, IsHex64, PhysicalLine, TakeHex, ParseSectionTail, ParseU64, Dec, SectionWord, Sep;
    var p1 := Skip(line, SectionWord()).value;
    var p2 := Skip(p1, Sep()).value;
    var (nfiles, p3) := ParseU64(p2).value;
    var p4 := Skip(p3, Sep()).value;
    var (plen, p5) := ParseU64(p4).value;
    var p6 := Skip(p5, Sep()).value;
    ParseU64Iff(p2, nfiles, p3) by { ParseU64Rest(p2); }
    ParseU64Iff(p4, plen, p5) by { ParseU64Rest(p4); }
    TailNotEmpty(nfiles, plen, p6);
    PhysicalTail(line, SectionWord(), p1);
    PhysicalTail(p1, Sep(), p2);
    PhysicalTail(p2, Dec(nfiles), p3);
    PhysicalTail(p3, Sep(), p4);
    PhysicalTail(p4, Dec(plen), p5);
    PhysicalTail(p5, Sep(), p6);
    ParseSectionTailIff(nfiles, plen, p6, s);
  }

  lemma ParseU64Rest(p: bytes)
    requires ParseU64(p).Some?
    ensures var rest := ParseU64(p).value.1; rest == [] || !IsDigit(rest[0])
  {
  }

  lemma SectionLineIntro(line: bytes, s: Section)
    requires PhysicalLine(line) && GoodSection(s) && line == SectionLine(s)
    ensures ParseSection(line) == Parsed(s)
  {
    hide Sealable, LineRest, IsHex64, PhysicalLine, TakeHex, ParseSectionTail, ParseU64, Dec, SectionWord, Skip;
    var p6 := s.hex + (Sep() + (s.name + [LF]));
    var p5 := Sep() + p6;
    var p4 := Dec(|s.name|) + p5;
    var p3 := Sep() + p4;
    var p2 := Dec(s.count) + p3;
    SkipConcat(SectionWord(), Sep() + p2);
    SkipConcat(Sep(), p2);
    ParseU64Iff(p2, s.count, p3);
    SkipConcat(Sep(), p4);
    SealableShort(s.name);
    ParseU64Iff(p4, |s.name|, p5);
    SkipConcat(Sep(), p6);
    PhysicalTail(line, SectionWord(), Sep() + p2);
    PhysicalTail(Sep() + p2, Sep(), p2);
    PhysicalTail(p2, Dec(s.count), p3);
    PhysicalTail(p3, Sep(), p4);
    PhysicalTail(p4, Dec(|s.name|), p5);
    PhysicalTail(p5, Sep(), p6);
    ParseSectionTailIff(s.count, |s.name|, p6, s);
  }

  lemma TailNotEmpty(nfiles: nat, plen: nat, p: bytes)
    requires ParseSectionTail(nfiles, plen, p).Parsed?
    ensures p != []
  {
  }

  /** TREE and ROOT lines: one digest, one spelling. */
  lemma HexLineIff(line: bytes, keyword: bytes, hex: bytes)
    requires PhysicalLine(line)
    ensures ParseHexLine(line, keyword) == Parsed(hex) <==> IsHex64(hex) && line == HexLine(keyword, hex)
  {
    hide LineRest, PhysicalLine, IsHex64;
    if ParseHexLine(line, keyword) == Parsed(hex) {
      var p2 := Skip(Skip(line, keyword).value, Sep()).value;
      assert line == (keyword + Sep()) + p2;
      assert p2 != [];
      PhysicalTail(line, keyword + Sep(), p2);
      PathTail(p2);
    }
    if IsHex64(hex) && line == HexLine(keyword, hex) {
      SkipConcat(keyword, Sep() + (hex + [LF]));
      SkipConcat(Sep(), hex + [LF]);
      assert line == (keyword + Sep()) + (hex + [LF]);
      PhysicalTail(line, keyword + Sep(), hex + [LF]);
      LineRestPhysical(hex + [LF]);
      Hex64Length(hex);
      assert (hex + [LF])[..2 * HSZ] == hex;
    }
  }

  /** Per-file lines: one record, one spelling, spaces in the path included. */
  lemma FileLineIff(line: bytes, f: FileLine)
    requires PhysicalLine(line)
    ensures ParseFileLine(line) == Parsed(f) <==> GoodFileLine(f) && line == FileLineText(f)
  {
    hide LineRest, PhysicalLine, IsHex64, Sealable, TakeHex;
    LineRestPhysical(line);
    if ParseFileLine(line) == Parsed(f) {
      TakeHexElim(line);
      var p2 := Skip(TakeHex(line).value.1, Sep()).value;
      assert line == (f.hex + Sep()) + p2;
      assert p2 != [];
      PhysicalTail(line, f.hex + Sep(), p2);
      PathTail(p2);
    }
    if GoodFileLine(f) && line == FileLineText(f) {
      TakeHexConcat(f.hex, Sep() + (f.path + [LF]));
      SkipConcat(Sep(), f.path + [LF]);
      PathText(f.path);
      SealableShort(f.path);
      Hex64Length(f.hex);
    }
  }

  lemma SealableShort(p: bytes)
    requires Sealable(p)
    ensures |p| < PATH_MAX
  {
  }
}
