/** Scanning strings for a character. */
module Text {
  /** Characters before the first c, or all of them. */
  function Span(r: string, c: char): (n: nat)
    ensures n <= |r| && (n < |r| ==> r[n] == c)
    ensures c !in r[..n]
  {
    if r == "" || r[0] == c then 0
    else
      var n := 1 + Span(r[1..], c);
      assert r[..n] == [r[0]] + r[1..][..n - 1];
      n
  }

  /** A scan that stops before the end stops there whatever is added after it. */
  lemma {:induction false} SpanExtend(r: string, x: string, c: char)
    requires Span(r, c) < |r|
    ensures Span(r + x, c) == Span(r, c)
    decreases |r|
  {
    if r[0] != c {
      assert (r + x)[1..] == r[1..] + x;
      SpanExtend(r[1..], x, c);
    }
  }

  /** A scan for c that ran to the end runs on. */
  lemma {:induction false} SpanThrough(r: string, x: string, c: char)
    requires Span(r, c) == |r|
    ensures Span(r + x, c) == |r| + Span(x, c)
    decreases |r|
  {
    if r == "" {
      assert r + x == x;
    } else {
      assert (r + x)[1..] == r[1..] + x;
      SpanThrough(r[1..], x, c);
    }
  }

  lemma {:induction false} SpanFound(r: string, c: char, k: nat)
    requires k <= |r| && c !in r[..k] && (k < |r| ==> r[k] == c)
    ensures Span(r, c) == k
  {
    if k > 0 {
      assert r[..k][0] == r[0] && r[1..][..k - 1] == r[..k][1..];
      SpanFound(r[1..], c, k - 1);
    }
  }

  lemma Tail(r: string, x: string, n: nat)
    requires n <= |r|
    ensures (r + x)[n..] == r[n..] + x && (r + x)[..n] == r[..n]
  {
  }

  lemma Assoc(a: string, b: string, c: string)
    ensures a + b + c == a + (b + c)
  {
  }

  lemma NewlineFirst(x: string)
    ensures Span("\n" + x, '\n') == 0
  {
  }
}
