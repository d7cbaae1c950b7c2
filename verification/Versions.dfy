/** dep_audit's version order. A version is read as a sequence of numbers and
    single characters; numbers of any length compare by value. */
module Versions {
  import opened Bytes
  import opened Decimal
  import StrCmp

  const ZERO: int := 48

  /* ---- versions as token sequences ------------------------------------------------ */

  datatype Token = Num(v: nat) | Ch(c: byte)

  function Tokens(s: bytes): seq<Token> {
    if s == [] then []
    else if IsDigit(s[0]) then [Num(DecValue(s[..DigitRun(s)]))] + Tokens(s[DigitRun(s)..])
    else [Ch(s[0])] + Tokens(s[1..])
  }

  /** Characters below the digits, then numbers, then characters above. */
  function Rank(t: Token): int {
    match t case Num(_) => ZERO case Ch(c) => c
  }

  function CmpToken(a: Token, b: Token): int {
    if a.Num? && b.Num? then Sign(a.v - b.v) else Sign(Rank(a) - Rank(b))
  }

  function Sign(x: int): int { if x < 0 then -1 else if x > 0 then 1 else 0 }

  /** Lexicographic; a proper prefix comes first. */
  function Cmp(a: seq<Token>, b: seq<Token>): int {
    if a == [] || b == [] then Sign(|a| - |b|)
    else if CmpToken(a[0], b[0]) != 0 then CmpToken(a[0], b[0])
    else Cmp(a[1..], b[1..])
  }

  /** Tokens as the reader makes them: a character token is not a digit. */
  predicate Proper(t: Token) { t.Ch? ==> !IsDigit(t.c) }

  predicate AllProper(a: seq<Token>) { forall i :: 0 <= i < |a| ==> Proper(a[i]) }

  lemma {:induction false} TokensProper(s: bytes)
    ensures AllProper(Tokens(s))
    decreases |s|
  {
    if s != [] {
      if IsDigit(s[0]) { TokensProper(s[DigitRun(s)..]); } else { TokensProper(s[1..]); }
    }
  }

  /** Two proper tokens tie only if they are the same token. */
  lemma TokenOrder(a: Token, b: Token, c: Token)
    requires Proper(a) && Proper(b) && Proper(c)
    ensures CmpToken(a, b) == 0 <==> a == b
    ensures CmpToken(a, b) == -CmpToken(b, a)
    ensures CmpToken(a, b) <= 0 && CmpToken(b, c) <= 0 ==> CmpToken(a, c) <= 0
    ensures CmpToken(a, b) < 0 && CmpToken(b, c) <= 0 ==> CmpToken(a, c) < 0
    ensures CmpToken(a, b) <= 0 && CmpToken(b, c) < 0 ==> CmpToken(a, c) < 0
  {
  }

  /** The order on token sequences is total and antisymmetric. */
  lemma {:induction false} CmpOrder(a: seq<Token>, b: seq<Token>, c: seq<Token>)
    requires AllProper(a) && AllProper(b) && AllProper(c)
    ensures Cmp(a, b) == 0 <==> a == b
    ensures Cmp(a, b) == -Cmp(b, a)
    ensures Cmp(a, b) <= 0 && Cmp(b, c) <= 0 ==> Cmp(a, c) <= 0
    decreases |a| + |b| + |c|
  {
    hide CmpToken;
    if a != [] && b != [] {
      if c != [] {
        TokenOrder(a[0], b[0], c[0]);
        CmpOrder(a[1..], b[1..], c[1..]);
      } else {
        TokenOrder(a[0], b[0], a[0]);
        CmpOrder(a[1..], b[1..], []);
      }
      assert a == [a[0]] + a[1..] && b == [b[0]] + b[1..];
    }
  }

  /* ---- numbers ------------------------------------------------------------------------- */

  /** The value by its leading digit. */
  lemma {:induction false} ValFront(d: bytes)
    requires Digits(d) && d != []
    ensures DecValue(d) == (d[0] - ZERO) * Pow10(|d| - 1) + DecValue(d[1..])
    decreases |d|
  {
    var n := |d|;
    if n > 1 {
      var t := d[..n - 1];
      ValFront(t);
      assert d[1..][..n - 2] == t[1..];
      assert Pow10(n - 1) == 10 * Pow10(n - 2);
      var a, p := d[0] - ZERO, Pow10(n - 2);
      assert a * (10 * p) == 10 * (a * p);
    }
  }

  /** A digit run without its leading zeros; the last digit stays. */
  function Strip(d: bytes): bytes {
    if |d| > 1 && d[0] == ZERO then Strip(d[1..]) else d
  }

  predicate Stripped(d: bytes) { d != [] && (|d| == 1 || d[0] != ZERO) }

  lemma {:induction false} StripKeeps(d: bytes)
    requires Digits(d) && d != []
    ensures Digits(Strip(d)) && Stripped(Strip(d)) && DecValue(Strip(d)) == DecValue(d)
  {
    if |d| > 1 && d[0] == ZERO {
      ValFront(d);
      StripKeeps(d[1..]);
    }
  }

  lemma {:induction false} ValBelow(d: bytes)
    requires Digits(d)
    ensures DecValue(d) < Pow10(|d|)
  {
    if d != [] {
      ValFront(d);
      ValBelow(d[1..]);
      Times(d[0] - ZERO, 9, Pow10(|d| - 1));
    }
  }

  lemma Times(a: int, b: int, p: nat)
    requires a <= b
    ensures a * p <= b * p
  {
  }

  lemma ValAtLeast(d: bytes)
    requires Digits(d) && d != [] && d[0] != ZERO
    ensures DecValue(d) >= Pow10(|d| - 1)
  {
    ValFront(d);
    Times(1, d[0] - ZERO, Pow10(|d| - 1));
  }

  lemma {:induction false} Pow10Grows(m: nat, n: nat)
    requires m <= n
    ensures Pow10(m) <= Pow10(n)
  {
    if m < n { Pow10Grows(m, n - 1); }
  }

  /** Of two stripped runs the shorter is the smaller number. */
  lemma ShorterIsLess(x: bytes, y: bytes)
    requires Digits(x) && Digits(y) && x != [] && Stripped(y) && |x| < |y|
    ensures DecValue(x) < DecValue(y)
  {
    ValBelow(x);
    ValAtLeast(y);
    Pow10Grows(|x|, |y| - 1);
  }

  /** Of two runs of one length the byte order is the order of the numbers. */
  lemma {:induction false} SameLength(x: bytes, y: bytes)
    requires Digits(x) && Digits(y) && |x| == |y|
    ensures StrCmp.Lt(x, y) <==> DecValue(x) < DecValue(y)
    ensures x == y <==> DecValue(x) == DecValue(y)
  {
    hide Pow10, DecValue;
    if x != [] {
      SameLength(x[1..], y[1..]);
      ValBelow(x[1..]);
      ValBelow(y[1..]);
      ValFront(x);
      ValFront(y);
      Positional(x[0] - ZERO, DecValue(x[1..]), y[0] - ZERO, DecValue(y[1..]), Pow10(|x| - 1));
      Positional(y[0] - ZERO, DecValue(y[1..]), x[0] - ZERO, DecValue(x[1..]), Pow10(|x| - 1));
      assert x == [x[0]] + x[1..] && y == [y[0]] + y[1..];
    } else {
      assert y == x;
    }
  }

  /** The leading digit decides. */
  lemma Positional(a: int, u: nat, b: int, v: nat, p: nat)
    requires u < p && v < p
    ensures a < b ==> a * p + u < b * p + v
  {
    if a < b {
      Times(a + 1, b, p);
      assert (a + 1) * p == a * p + p;
    }
  }

  /** Numbers written differently but equal strip to the same digits. */
  lemma StripUnique(x: bytes, y: bytes)
    requires Digits(x) && Digits(y) && x != [] && y != []
    ensures DecValue(x) == DecValue(y) <==> Strip(x) == Strip(y)
  {
    hide DecValue;
    StripKeeps(x);
    StripKeeps(y);
    var a, b := Strip(x), Strip(y);
    if |a| < |b| {
      ShorterIsLess(a, b);
    } else if |b| < |a| {
      ShorterIsLess(b, a);
    } else {
      SameLength(a, b);
    }
  }

  function CmpBytes(x: bytes, y: bytes): int {
    if StrCmp.Lt(x, y) then -1 else if x == y then 0 else 1
  }

  /** Length first, then bytes: the comparison of two stripped runs. */
  lemma StrippedCompare(x: bytes, y: bytes)
    requires Digits(x) && Digits(y) && Stripped(x) && Stripped(y)
    ensures Sign(DecValue(x) - DecValue(y)) == if |x| != |y| then Sign(|x| - |y|) else CmpBytes(x, y)
  {
    hide DecValue;
    if |x| < |y| {
      ShorterIsLess(x, y);
    } else if |y| < |x| {
      ShorterIsLess(y, x);
    } else {
      SameLength(x, y);
    }
  }

  /* ---- the comparison as it runs ----------------------------------------------------------- */

  /** The leading zeros numeric_cmp steps over. */
  method SkipZeros(s: bytes, i: nat, ghost e: nat) returns (k: nat)
    requires i < e <= |s| && Digits(s[i..e]) && (e < |s| ==> !IsDigit(s[e]))
    ensures i <= k < e && s[k..e] == Strip(s[i..e])
  {
    k := i;
    while s[k] == ZERO && k + 1 < |s| && IsDigit(s[k + 1])
      invariant i <= k < e && Strip(s[k..e]) == Strip(s[i..e])
    {
      assert k + 1 < e;
      assert s[k..e][1..] == s[k + 1..e];
      k := k + 1;
    }
    assert k + 1 < e ==> s[k + 1] == s[i..e][k + 1 - i];
  }

  /** numeric_cmp at two digit runs: their numbers compared, and where they end. */
  method NumericCmp(a: bytes, i: nat, b: bytes, j: nat) returns (c: int, i': nat, j': nat)
    requires i < |a| && IsDigit(a[i]) && j < |b| && IsDigit(b[j])
    ensures i' == i + DigitRun(a[i..]) && j' == j + DigitRun(b[j..])
    ensures c == Sign(DecValue(a[i..][..DigitRun(a[i..])]) - DecValue(b[j..][..DigitRun(b[j..])]))
  {
    hide DecValue, Strip;
    i', j' := i + DigitRun(a[i..]), j + DigitRun(b[j..]);
    RunAt(a, i);
    RunAt(b, j);
    var x := SkipZeros(a, i, i');
    var y := SkipZeros(b, j, j');
    StripKeeps(a[i..i']);
    StripKeeps(b[j..j']);
    StrippedCompare(a[x..i'], b[y..j']);
    if i' - x != j' - y {
      c := if i' - x < j' - y then -1 else 1;
    } else {
      c := CmpBytes(a[x..i'], b[y..j']);
    }
  }

  lemma RunAt(s: bytes, i: nat)
    requires i < |s| && IsDigit(s[i])
    ensures var n := DigitRun(s[i..]);
            && n > 0 && i + n <= |s| && s[i..][..n] == s[i..i + n] && Digits(s[i..i + n])
              && (i + n < |s| ==> !IsDigit(s[i + n]))
  {
  }

  /** version_cmp: the lexicographic order of the token sequences. */
  method VersionCmp(a: bytes, b: bytes) returns (c: int)
    ensures c == Cmp(Tokens(a), Tokens(b))
  {
    hide DecValue, Tokens, Cmp;
    var i: nat, j: nat := 0, 0;
    assert a[0..] == a && b[0..] == b;
    while i < |a| || j < |b|
      invariant i <= |a| && j <= |b|
      invariant Cmp(Tokens(a[i..]), Tokens(b[j..])) == Cmp(Tokens(a), Tokens(b))
      decreases |a| - i + |b| - j
    {
      CmpAt(a[i..], b[j..]);
      if i < |a| && j < |b| && IsDigit(a[i]) && IsDigit(b[j]) {
        RunAt(a, i);
        RunAt(b, j);
        assert a[i..][DigitRun(a[i..])..] == a[i + DigitRun(a[i..])..];
        assert b[j..][DigitRun(b[j..])..] == b[j + DigitRun(b[j..])..];
        var i', j';
        c, i', j' := NumericCmp(a, i, b, j);
        if c != 0 { return; }
        i, j := i', j';
      } else {
        if i == |a| { return -1; }
        if j == |b| { return 1; }
        if a[i] != b[j] { return if a[i] < b[j] then -1 else 1; }
        assert a[i..][1..] == a[i + 1..] && b[j..][1..] == b[j + 1..];
        i, j := i + 1, j + 1;
      }
    }
    CmpEnd();
    assert a[i..] == [] && b[j..] == [];
    c := 0;
  }

  /** One step of the comparison, on the texts. */
  lemma CmpAt(a: bytes, b: bytes)
    ensures a == [] && b != [] ==> Cmp(Tokens(a), Tokens(b)) == -1
    ensures a != [] && b == [] ==> Cmp(Tokens(a), Tokens(b)) == 1
    ensures a != [] && b != [] && IsDigit(a[0]) && IsDigit(b[0]) ==>
              var m, n := DigitRun(a), DigitRun(b);
              var c := Sign(DecValue(a[..m]) - DecValue(b[..n]));
              Cmp(Tokens(a), Tokens(b)) == if c != 0 then c else Cmp(Tokens(a[m..]), Tokens(b[n..]))
    ensures a != [] && b != [] && !(IsDigit(a[0]) && IsDigit(b[0])) ==>
              Cmp(Tokens(a), Tokens(b)) ==
                if a[0] < b[0] then -1 else if a[0] > b[0] then 1 else Cmp(Tokens(a[1..]), Tokens(b[1..]))
  {
    hide DecValue, Tokens, DigitRun;
    TokensNone();
    if a != [] { TokensFirst(a); }
    if b != [] { TokensFirst(b); }
  }

  lemma TokensNone()
    ensures Tokens([]) == []
  {
  }

  lemma TokensFirst(s: bytes)
    requires s != []
    ensures Tokens(s) != []
    ensures IsDigit(s[0]) ==>
              Tokens(s)[0] == Num(DecValue(s[..DigitRun(s)])) && Tokens(s)[1..] == Tokens(s[DigitRun(s)..])
    ensures !IsDigit(s[0]) ==> Tokens(s)[0] == Ch(s[0]) && Tokens(s)[1..] == Tokens(s[1..])
  {
    hide DecValue;
  }

  lemma CmpEnd()
    ensures Cmp(Tokens([]), Tokens([])) == 0
  {
  }

  /* ---- ties ---------------------------------------------------------------------------------- */

  /** The version with the leading zeros of every number dropped. */
  function Normal(s: bytes): bytes {
    if s == [] then []
    else if IsDigit(s[0]) then Strip(s[..DigitRun(s)]) + Normal(s[DigitRun(s)..])
    else [s[0]] + Normal(s[1..])
  }

  /** Dropping leading zeros changes no token. */
  lemma {:induction false} NormalTokens(s: bytes)
    ensures Tokens(Normal(s)) == Tokens(s)
    ensures Normal(s) != [] <==> s != []
    ensures s != [] && !IsDigit(s[0]) ==> !IsDigit(Normal(s)[0])
    decreases |s|
  {
    hide DecValue, Strip, Tokens;
    if s != [] {
      TokensFirst(s);
      TokensNone();
      if IsDigit(s[0]) {
        var n := DigitRun(s);
        var d, r := Strip(s[..n]), Normal(s[n..]);
        StripKeeps(s[..n]);
        NormalTokens(s[n..]);
        DigitRunSplit(d, r);
        TokensFirst(d + r);
        assert (d + r)[..|d|] == d && (d + r)[|d|..] == r;
        assert Tokens(s) == [Tokens(s)[0]] + Tokens(s)[1..] && Tokens(d + r) == [Tokens(d + r)[0]] + Tokens(d + r)[1..];
      } else {
        NormalTokens(s[1..]);
        var e := [s[0]] + Normal(s[1..]);
        TokensFirst(e);
        assert e[1..] == Normal(s[1..]);
        assert Tokens(s) == [Tokens(s)[0]] + Tokens(s)[1..] && Tokens(e) == [Tokens(e)[0]] + Tokens(e)[1..];
      }
    }
  }

  lemma {:induction false} SameTokensSameNormal(a: bytes, b: bytes)
    requires Tokens(a) == Tokens(b)
    ensures Normal(a) == Normal(b)
    decreases |a|
  {
    hide DecValue, Strip, Tokens;
    TokensNone();
    if a != [] { TokensFirst(a); }
    if b != [] { TokensFirst(b); }
    if a != [] && b != [] {
      if IsDigit(a[0]) {
        StripUnique(a[..DigitRun(a)], b[..DigitRun(b)]);
        SameTokensSameNormal(a[DigitRun(a)..], b[DigitRun(b)..]);
      } else {
        SameTokensSameNormal(a[1..], b[1..]);
      }
    }
  }

  /** version_cmp ties exactly the versions that are equal once the leading zeros
      of every number are dropped. */
  lemma TiesIff(a: bytes, b: bytes)
    ensures Cmp(Tokens(a), Tokens(b)) == 0 <==> Normal(a) == Normal(b)
  {
    hide Tokens, Normal, Cmp, AllProper;
    TokensProper(a);
    TokensProper(b);
    CmpOrder(Tokens(a), Tokens(b), Tokens(a));
    NormalTokens(a);
    NormalTokens(b);
    if Tokens(a) == Tokens(b) { SameTokensSameNormal(a, b); }
  }

  /** version_cmp is a total preorder on all byte strings. */
  lemma VersionPreorder(a: bytes, b: bytes, c: bytes)
    ensures Cmp(Tokens(a), Tokens(a)) == 0
    ensures Cmp(Tokens(a), Tokens(b)) == -Cmp(Tokens(b), Tokens(a))
    ensures Cmp(Tokens(a), Tokens(b)) <= 0 && Cmp(Tokens(b), Tokens(c)) <= 0 ==> Cmp(Tokens(a), Tokens(c)) <= 0
  {
    hide Tokens, Cmp, AllProper;
    TokensProper(a);
    TokensProper(b);
    TokensProper(c);
    CmpOrder(Tokens(a), Tokens(b), Tokens(c));
    CmpOrder(Tokens(a), Tokens(a), Tokens(a));
  }

  /* ---- the order on the texts ------------------------------------------------------------------ */

  /** A text cut in two, but not inside a number. */
  predicate Cut(p: bytes, r: bytes) {
    p == [] || r == [] || !IsDigit(p[|p| - 1]) || !IsDigit(r[0])
  }

  /** Where two texts part: the smaller number, the smaller character, or the end. */
  predicate Parts(r: bytes, s: bytes) {
    if r == [] || s == [] then s != []
    else if IsDigit(r[0]) && IsDigit(s[0]) then DecValue(r[..DigitRun(r)]) < DecValue(s[..DigitRun(s)])
    else r[0] < s[0]
  }

  /** The texts agree, but for leading zeros, up to where they part. */
  ghost predicate PartsAt(p: bytes, r: bytes, q: bytes, s: bytes) {
    Normal(p) == Normal(q) && Cut(p, r) && Cut(q, s) && Parts(r, s)
  }

  /** a comes before b in version order. */
  ghost predicate Before(a: bytes, b: bytes) {
    exists p, r, q, s :: PartsAt(p, r, q, s) && a == p + r && b == q + s
  }

  lemma {:induction false} TokensSplit(p: bytes, r: bytes)
    requires Cut(p, r)
    ensures Tokens(p + r) == Tokens(p) + Tokens(r)
    decreases |p|
  {
    hide DecValue, Tokens, DigitRun;
    TokensNone();
    if p == [] {
      assert p + r == r;
    } else {
      var t := p + r;
      TokensFirst(p);
      TokensFirst(t);
      var n := if IsDigit(p[0]) then DigitRun(p) else 1;
      assert t[0] == p[0];
      if IsDigit(p[0]) { RunKept(p, r); }
      assert t[..n] == p[..n] && t[n..] == p[n..] + r;
      if n < |p| { LastKept(p, n); }
      TokensSplit(p[n..], r);
      assert Tokens(t) == [Tokens(t)[0]] + Tokens(t)[1..] && Tokens(p) == [Tokens(p)[0]] + Tokens(p)[1..];
    }
  }

  /** A number at the front of p is the number at the front of p + r. */
  lemma RunKept(p: bytes, r: bytes)
    requires p != [] && IsDigit(p[0]) && Cut(p, r)
    ensures 0 < DigitRun(p) <= |p| && DigitRun(p + r) == DigitRun(p)
  {
    var n := DigitRun(p);
    if n < |p| {
      RunWithin(p, r);
    } else {
      assert p[..n] == p;
      DigitRunSplit(p, r);
    }
  }

  lemma {:induction false} CmpPrefix(t: seq<Token>, a: seq<Token>, b: seq<Token>)
    requires AllProper(t)
    ensures Cmp(t + a, t + b) == Cmp(a, b)
    decreases |t|
  {
    hide CmpToken;
    if t == [] {
      assert t + a == a && t + b == b;
    } else {
      TokenOrder(t[0], t[0], t[0]);
      assert (t + a)[0] == t[0] && (t + a)[1..] == t[1..] + a;
      assert (t + b)[0] == t[0] && (t + b)[1..] == t[1..] + b;
      CmpPrefix(t[1..], a, b);
    }
  }

  /** Texts that part are ordered by where they part. */
  lemma PartsDecide(p: bytes, r: bytes, q: bytes, s: bytes)
    requires PartsAt(p, r, q, s)
    ensures Cmp(Tokens(p + r), Tokens(q + s)) == -1
  {
    hide Tokens, Cmp, Normal, AllProper, Cut;
    NormalTokens(p);
    NormalTokens(q);
    TokensSplit(p, r);
    TokensSplit(q, s);
    TokensProper(p);
    CmpPrefix(Tokens(p), Tokens(r), Tokens(s));
    CmpAt(r, s);
  }

  /** Texts in version order part somewhere. */
  lemma {:induction false} FindParts(a: bytes, b: bytes) returns (p: bytes, r: bytes, q: bytes, s: bytes)
    requires Cmp(Tokens(a), Tokens(b)) < 0
    ensures PartsAt(p, r, q, s) && a == p + r && b == q + s
    decreases |a|
  {
    hide Tokens, Cmp, Normal, Cut, DecValue, DigitRun;
    CmpAt(a, b);
    CmpEnd();
    assert b != [];
    if Parts(a, b) {
      p, r, q, s := [], a, [], b;
      assert Cut([], a) && Cut([], b) by { CutNone(a); CutNone(b); }
    } else {
      var m, n := FirstLen(a), FirstLen(b);
      FirstCut(a);
      FirstCut(b);
      var x, y;
      x, r, y, s := FindParts(a[m..], b[n..]);
      p, q := a[..m] + x, b[..n] + y;
      assert a == a[..m] + a[m..] && b == b[..n] + b[n..];
      Assoc(a[..m], x, r);
      Assoc(b[..n], y, s);
      FrontCut(a[..m], x, r);
      FrontCut(b[..n], y, s);
      SameFront(a[..m], x, b[..n], y);
    }
  }

  lemma CutNone(r: bytes)
    ensures Cut([], r)
  {
  }

  /** The first number or character of a text. */
  lemma FirstCut(a: bytes)
    requires a != []
    ensures var m := FirstLen(a); Cut(a[..m], a[m..]) && Front(a[..m]) && a[..m][0] == a[0]
  {
  }

  lemma FrontCut(f: bytes, x: bytes, r: bytes)
    requires f != [] && Cut(f, x + r) && Cut(x, r)
    ensures Cut(f + x, r) && Cut(f, x)
  {
    if x == [] {
      assert x + r == r && f + x == f;
    } else {
      assert (x + r)[0] == x[0];
    }
  }

  /** The length of the first number or character. */
  function FirstLen(a: bytes): (m: nat)
    requires a != []
    ensures 0 < m <= |a|
  {
    if IsDigit(a[0]) then DigitRun(a) else 1
  }

  /** Equal first tokens, then texts equal but for leading zeros. */
  lemma SameFront(f: bytes, x: bytes, g: bytes, y: bytes)
    requires Front(f) && Front(g) && Cut(f, x) && Cut(g, y) && Normal(x) == Normal(y)
    requires if IsDigit(f[0]) then IsDigit(g[0]) && DecValue(f) == DecValue(g) else f == g
    ensures Normal(f + x) == Normal(g + y)
  {
    hide Normal, Strip, DecValue, Cut;
    NormalFront(f, x);
    NormalFront(g, y);
    if IsDigit(f[0]) { StripUnique(f, g); }
  }

  /** One number or one other character. */
  predicate Front(f: bytes) {
    f != [] && if IsDigit(f[0]) then Digits(f) else |f| == 1
  }

  lemma NormalFront(f: bytes, x: bytes)
    requires Front(f) && Cut(f, x)
    ensures Normal(f + x) == (if IsDigit(f[0]) then Strip(f) else f) + Normal(x)
  {
    hide Normal, Strip;
    NormalStep(f + x);
    assert (f + x)[0] == f[0];
    if IsDigit(f[0]) {
      assert !(x != [] && IsDigit(x[0]));
      DigitRunSplit(f, x);
      assert (f + x)[..|f|] == f && (f + x)[|f|..] == x;
    } else {
      assert (f + x)[1..] == x && f == [f[0]];
    }
  }

  /** version_cmp on the texts themselves. */
  lemma BeforeIff(a: bytes, b: bytes)
    ensures Cmp(Tokens(a), Tokens(b)) < 0 <==> Before(a, b)
  {
    hide Tokens, Cmp, PartsAt;
    if Cmp(Tokens(a), Tokens(b)) < 0 {
      var p, r, q, s := FindParts(a, b);
    }
    if p, r, q, s :| PartsAt(p, r, q, s) && a == p + r && b == q + s {
      PartsDecide(p, r, q, s);
    }
  }

  /* ---- the check ------------------------------------------------------------------------------- */

  /** min comes no later than cur: version order, ties by byte order. */
  predicate AtLeast(cur: bytes, min: bytes) {
    var c := Cmp(Tokens(min), Tokens(cur));
    c < 0 || (c == 0 && StrCmp.Leq(min, cur))
  }

  /** The refined order is a total order. */
  lemma AtLeastOrder(a: bytes, b: bytes, c: bytes)
    ensures AtLeast(a, a)
    ensures AtLeast(a, b) || AtLeast(b, a)
    ensures AtLeast(a, b) && AtLeast(b, a) ==> a == b
    ensures AtLeast(c, b) && AtLeast(b, a) ==> AtLeast(c, a)
  {
    hide Tokens, Cmp, StrCmp.Lt;
    VersionPreorder(a, b, c);
    VersionPreorder(b, c, a);
    VersionPreorder(c, a, b);
    StrCmp.LtTotal(a, b);
    if StrCmp.Lt(a, b) { StrCmp.LtAsymmetric(a, b); }
    if StrCmp.Lt(a, b) && StrCmp.Lt(b, c) { StrCmp.LtTransitive(a, b, c); }
    TieClass(a, b, c);
  }

  lemma TieClass(a: bytes, b: bytes, c: bytes)
    ensures Cmp(Tokens(a), Tokens(b)) == 0 ==> Cmp(Tokens(a), Tokens(c)) == Cmp(Tokens(b), Tokens(c))
    ensures Cmp(Tokens(b), Tokens(c)) == 0 ==> Cmp(Tokens(a), Tokens(b)) == Cmp(Tokens(a), Tokens(c))
  {
    hide Tokens, Cmp, AllProper;
    TokensProper(a);
    TokensProper(b);
    TokensProper(c);
    CmpOrder(Tokens(a), Tokens(b), Tokens(c));
    CmpOrder(Tokens(b), Tokens(c), Tokens(a));
  }

  /** a is older than b: it comes before b, or they are equal but for leading zeros
      and a comes first in byte order. */
  ghost predicate Older(a: bytes, b: bytes) {
    Before(a, b) || (Normal(a) == Normal(b) && StrCmp.Lt(a, b))
  }

  lemma AtLeastIff(cur: bytes, min: bytes)
    ensures AtLeast(cur, min) <==> !Older(cur, min)
  {
    hide Tokens, Cmp, Normal, StrCmp.Lt, Before;
    BeforeIff(cur, min);
    TiesIff(cur, min);
    VersionPreorder(cur, min, cur);
    StrCmp.LtTotal(cur, min);
    if StrCmp.Lt(cur, min) { StrCmp.LtAsymmetric(cur, min); }
  }

  /** Of two versions at most one is older, and one is unless they are the same text. */
  lemma OlderTotal(a: bytes, b: bytes)
    ensures Older(a, b) ==> !Older(b, a)
    ensures a != b ==> Older(a, b) || Older(b, a)
  {
    hide AtLeast, Older;
    AtLeastIff(a, b);
    AtLeastIff(b, a);
    AtLeastOrder(a, b, a);
  }

  /** The first number that differs decides, whatever follows. */
  lemma NumberDecides(p: bytes, x: bytes, r: bytes, y: bytes, s: bytes)
    requires p == [] || !IsDigit(p[|p| - 1])
    requires Digits(x) && x != [] && Cut(x, r) && Digits(y) && y != [] && Cut(y, s) && DecValue(x) < DecValue(y)
    ensures Older(p + (x + r), p + (y + s)) && !Older(p + (y + s), p + (x + r))
  {
    hide DecValue, Normal, StrCmp.Lt;
    DigitRunSplit(x, r);
    DigitRunSplit(y, s);
    assert (x + r)[..|x|] == x && (y + s)[..|y|] == y;
    assert PartsAt(p, x + r, p, y + s);
    assert Before(p + (x + r), p + (y + s));
    OlderTotal(p + (x + r), p + (y + s));
  }

  /** So does the first character that differs, unless both are digits. */
  lemma CharDecides(p: bytes, r: bytes, s: bytes)
    requires r != [] && s != [] && r[0] < s[0] && !(IsDigit(r[0]) && IsDigit(s[0])) && Cut(p, r) && Cut(p, s)
    ensures Older(p + r, p + s) && !Older(p + s, p + r)
  {
    hide Normal, StrCmp.Lt;
    assert PartsAt(p, r, p, s);
    assert Before(p + r, p + s);
    OlderTotal(p + r, p + s);
  }

  /** A version is older than one that goes on after it. */
  lemma PrefixDecides(p: bytes, r: bytes)
    requires r != [] && Cut(p, r)
    ensures Older(p, p + r) && !Older(p + r, p)
  {
    hide Normal, StrCmp.Lt;
    assert p + [] == p;
    assert PartsAt(p, [], p, r);
    assert Before(p, p + r);
    OlderTotal(p, p + r);
  }

  /** older_of: version order, then byte order. */
  method OlderOf(cur: bytes, min: bytes) returns (older: bytes)
    ensures older == if Older(min, cur) then min else cur
  {
    hide Tokens, Cmp, StrCmp.Lt, Older;
    var c := VersionCmp(cur, min);
    AtLeastIff(min, cur);
    if c == 0 { c := CmpBytes(cur, min); }
    older := if c <= 0 then cur else min;
  }

  function Unknown(): bytes { Ascii("unknown") }

  /** check_version: a known version passes exactly if it is not older than the
      minimum. */
  method CheckVersion(cur: bytes, min: bytes) returns (pass: bool)
    ensures pass <==> cur != Unknown() && !Older(cur, min)
  {
    hide Older, Unknown;
    OlderTotal(cur, min);
    if cur == Unknown() { return false; }
    var older := OlderOf(cur, min);
    pass := !(older != min && cur != min);
  }

  /** A version equal to the minimum as numbers can still fail: a zero written
      before one of its numbers puts it before the minimum in byte order. */
  lemma LeadingZeroFails(p: bytes, x: bytes)
    requires (p == [] || !IsDigit(p[|p| - 1])) && x != [] && IsDigit(x[0]) && x[0] != ZERO
    ensures Cmp(Tokens(p + ([ZERO] + x)), Tokens(p + x)) == 0
    ensures Older(p + ([ZERO] + x), p + x)
  {
    hide AtLeast, Before, Tokens, Cmp, Normal, StrCmp.Lt, StrCmp.Leq;
    var a, b := p + ([ZERO] + x), p + x;
    ZeroNormal(p, x);
    TiesIff(a, b);
    VersionPreorder(a, b, a);
    ZeroBefore(p, x);
  }

  lemma {:induction false} ZeroBefore(p: bytes, x: bytes)
    requires x != [] && IsDigit(x[0]) && x[0] != ZERO
    ensures StrCmp.Lt(p + ([ZERO] + x), p + x)
    decreases |p|
  {
    var y := [ZERO] + x;
    if p == [] {
      assert p + y == y && p + x == x;
    } else {
      assert (p + y)[1..] == p[1..] + y && (p + x)[1..] == p[1..] + x;
      ZeroBefore(p[1..], x);
    }
  }

  lemma {:induction false} ZeroNormal(p: bytes, x: bytes)
    requires (p == [] || !IsDigit(p[|p| - 1])) && x != [] && IsDigit(x[0]) && x[0] != ZERO
    ensures Normal(p + ([ZERO] + x)) == Normal(p + x)
    decreases |p|
  {
    hide Normal, Strip, DigitRun, IsDigit;
    var y := [ZERO] + x;
    if p == [] {
      assert p + y == y && p + x == x;
      ZeroFirst(x);
    } else {
      NormalStep(p + y);
      NormalStep(p + x);
      assert (p + y)[0] == p[0] && (p + x)[0] == p[0];
      if IsDigit(p[0]) {
        var n := DigitRun(p);
        DigitFirst(p);
        RunWithin(p, y);
        RunWithin(p, x);
        LastKept(p, n);
        ZeroNormal(p[n..], x);
      } else {
        assert (p + y)[1..] == p[1..] + y && (p + x)[1..] == p[1..] + x;
        if |p| > 1 { LastKept(p, 1); }
        ZeroNormal(p[1..], x);
      }
    }
  }

  lemma DigitFirst(p: bytes)
    requires p != [] && IsDigit(p[0]) && !IsDigit(p[|p| - 1])
    ensures 0 < DigitRun(p) < |p|
  {
  }

  lemma LastKept(p: bytes, n: nat)
    requires n < |p|
    ensures p[n..][|p| - n - 1] == p[|p| - 1]
  {
  }

  lemma ZeroFirst(x: bytes)
    requires x != [] && IsDigit(x[0]) && x[0] != ZERO
    ensures Normal([ZERO] + x) == Normal(x)
  {
    hide Normal;
    var y, n := [ZERO] + x, DigitRun(x);
    NormalStep(y);
    NormalStep(x);
    assert y[1..] == x;
    assert DigitRun(y) == n + 1;
    var a, b := y[..n + 1], x[..n];
    assert a[1..] == b && y[n + 1..] == x[n..];
    assert Strip(a) == Strip(b);
  }

  lemma NormalStep(s: bytes)
    requires s != []
    ensures Normal(s)
      == if IsDigit(s[0]) then Strip(s[..DigitRun(s)]) + Normal(s[DigitRun(s)..]) else [s[0]] + Normal(s[1..])
  {
  }

  /** A run of digits that ends inside p. */
  lemma RunWithin(p: bytes, r: bytes)
    requires DigitRun(p) < |p|
    ensures DigitRun(p + r) == DigitRun(p)
    ensures (p + r)[..DigitRun(p)] == p[..DigitRun(p)] && (p + r)[DigitRun(p)..] == p[DigitRun(p)..] + r
  {
    var n := DigitRun(p);
    var a, b := p[..n], p[n..] + r;
    assert p + r == a + b && b[0] == p[n];
    DigitRunSplit(a, b);
  }

  function ZlibMin(): bytes { [49, 46, 50, 46, 49, 50] }

  /** ZLIB_MIN is 1.2.12; the same version written 1.02.12 is refused. */
  lemma ZlibLeadingZero()
    ensures ZlibMin() == Ascii("1.2.12")
    ensures Cmp(Tokens([49, 46, 48, 50, 46, 49, 50]), Tokens(ZlibMin())) == 0
    ensures Older([49, 46, 48, 50, 46, 49, 50], ZlibMin())
  {
    hide Older, Tokens, Cmp;
    var p, x: bytes := [49, 46], [50, 46, 49, 50];
    LeadingZeroFails(p, x);
    assert [49, 46, 48, 50, 46, 49, 50] == p + ([ZERO] + x) && ZlibMin() == p + x;
    assert |Ascii("1.2.12")| == 6;
  }

  function OpensslMin(): bytes { [51, 46, 48, 46, 49, 54] }

  /** OPENSSL_MIN is 3.0.16: 3.0.15 is refused, 3.0.100 passes. */
  lemma OpensslPatch()
    ensures OpensslMin() == Ascii("3.0.16")
    ensures Older([51, 46, 48, 46, 49, 53], OpensslMin())
    ensures !Older([51, 46, 48, 46, 49, 48, 48], OpensslMin())
  {
    hide Older;
    var p, x, y, z: bytes := [51, 46, 48, 46], [49, 53], [49, 54], [49, 48, 48];
    assert x[..1] == [49] && y[..1] == [49] && z[..2] == [49, 48] && z[..2][..1] == [49];
    assert DecValue(x) == 15 && DecValue(y) == 16;
    assert DecValue(z[..2]) == 10 && DecValue(z) == 100;
    NumberDecides(p, x, [], y, []);
    NumberDecides(p, y, [], z, []);
    assert x + [] == x && y + [] == y && z + [] == z;
    assert p + x == [51, 46, 48, 46, 49, 53] && p + y == OpensslMin() && p + z == [51, 46, 48, 46, 49, 48, 48];
    assert |Ascii("3.0.16")| == 6;
  }
}
