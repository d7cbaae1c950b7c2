/** Decimal digits: runs of them, their value, and the canonical spelling. */
module Decimal {
  import opened Bytes

  predicate IsDigit(c: byte) { 48 <= c <= 57 }

  predicate Digits(s: bytes) { forall i :: 0 <= i < |s| ==> IsDigit(s[i]) }

  function DigitRun(s: bytes): (n: nat)
    ensures n <= |s|
    ensures forall i :: 0 <= i < n ==> IsDigit(s[i])
    ensures n < |s| ==> !IsDigit(s[n])
  {
    if s == [] || !IsDigit(s[0]) then 0 else 1 + DigitRun(s[1..])
  }

  function DecValue(s: bytes): nat
    requires forall i :: 0 <= i < |s| ==> IsDigit(s[i])
  {
    if s == [] then 0
    else
      assert IsDigit(s[|s| - 1]);
      var d: int := s[|s| - 1];
      DecValue(s[..|s| - 1]) * 10 + (d - 48)
  }

  /** printf("%llu") */
  function Dec(n: nat): (r: bytes)
    ensures |r| > 0
    ensures forall i :: 0 <= i < |r| ==> IsDigit(r[i])
    ensures |r| > 1 ==> r[0] != 48
    ensures n > 0 ==> r[0] != 48
  {
    if n < 10 then [48 + n] else Dec(n / 10) + [48 + n % 10]
  }

  lemma {:induction false} DecValueDec(n: nat)
    ensures DecValue(Dec(n)) == n
  {
    if n >= 10 {
      assert Dec(n)[..|Dec(n)| - 1] == Dec(n / 10);
      DecValueDec(n / 10);
    } else {
      assert Dec(n)[..0] == [];
    }
  }

  /** A digit string without a superfluous leading zero is the spelling of its value. */
  lemma {:induction false} DecDecValue(s: bytes)
    requires |s| > 0 && forall i :: 0 <= i < |s| ==> IsDigit(s[i])
    requires |s| > 1 ==> s[0] != 48
    ensures Dec(DecValue(s)) == s
    ensures |s| > 1 ==> DecValue(s) >= 10
  {
    var t := s[..|s| - 1];
    assert s == t + [s[|s| - 1]];
    if |s| == 1 {
      assert t == [] && DecValue(s) == s[0] - 48;
    } else {
      DecDecValue(t);
      assert |t| == 1 ==> DecValue(t) >= 1 by {
        if |t| == 1 { assert t[..0] == []; }
      }
    }
  }

  lemma {:induction false} DecPrefix(s: bytes, i: nat)
    requires i <= |s| && forall k :: 0 <= k < |s| ==> IsDigit(s[k])
    ensures DecValue(s[..i]) <= DecValue(s)
    decreases |s| - i
  {
    if i < |s| {
      DecPrefix(s, i + 1);
      assert s[..i + 1][..i] == s[..i];
    } else {
      assert s[..i] == s;
    }
  }

  lemma DigitRunSplit(ds: bytes, rest: bytes)
    requires forall i :: 0 <= i < |ds| ==> IsDigit(ds[i])
    requires rest == [] || !IsDigit(rest[0])
    ensures DigitRun(ds + rest) == |ds|
  {
    var n := DigitRun(ds + rest);
    assert forall i :: 0 <= i < |ds| ==> (ds + rest)[i] == ds[i];
    assert rest != [] ==> (ds + rest)[|ds|] == rest[0];
  }

  function Pow10(n: nat): (p: nat)
    ensures p > 0
  {
    if n == 0 then 1 else 10 * Pow10(n - 1)
  }

  lemma {:induction false} DecLength(n: nat, k: nat)
    requires k > 0 && n < Pow10(k)
    ensures |Dec(n)| <= k
    decreases k
  {
    if n >= 10 {
      assert k > 1;
      DecLength(n / 10, k - 1);
    }
  }

  /** A 64-bit count prints in at most twenty digits. */
  lemma DecShort(n: nat)
    requires n < 0x1_0000_0000_0000_0000
    ensures |Dec(n)| <= 20
  {
    assert Pow10(2) == 100;
    assert Pow10(4) == 10000;
    assert Pow10(6) == 1000000;
    assert Pow10(8) == 100000000;
    assert Pow10(10) == 10000000000;
    assert Pow10(12) == 1000000000000;
    assert Pow10(14) == 100000000000000;
    assert Pow10(16) == 10000000000000000;
    assert Pow10(18) == 1000000000000000000;
    assert Pow10(20) == 100000000000000000000;
    DecLength(n, 20);
  }
}
