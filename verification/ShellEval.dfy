/** How deep the guard looks: a text is refused exactly if it, or a text reached
    through at most four nested recorded substitutions, breaks a rule. */
module ShellEval {
  import opened Wrappers
  import opened ShellTok
  import opened ShellBounds

  const MAX_NEST: nat := 4

  /** What the rules say about one text's segments and redirects at a depth; any
      rules, those that look into nested shells included. */
  type Rules = (string, Tokens, nat) -> Option<string>

  function SubText(s: string, k: nat): string
    requires k < |Tokenize(s).subs|
  {
    TokenizeSlices(s);
    var sub := Tokenize(s).subs[k];
    s[sub.off..sub.off + sub.len]
  }

  /** u stands n substitutions deep in s. */
  ghost predicate Nested(s: string, u: string, n: nat)
    decreases n
  {
    if n == 0 then u == s else exists k :: 0 <= k < |Tokenize(s).subs| && Nested(SubText(s, k), u, n - 1)
  }

  /** From this depth on, some text no deeper than the limit breaks a rule. */
  ghost predicate Refused(rules: Rules, s: string, depth: nat) {
    exists u, n :: 0 <= n && depth + n <= MAX_NEST && Nested(s, u, n) && rules(u, Tokenize(u), depth + n).Some?
  }

  /** eval_buf */
  method EvalBuf(rules: Rules, s: string, depth: nat) returns (r: Option<string>)
    ensures r.Some? <==> Refused(rules, s, depth)
    decreases MAX_NEST + 1 - depth
  {
    hide Tokenize, Refused;
    RefusedIff(rules, s, depth);
    if depth > MAX_NEST { return None; }
    var tokens := Tokenize(s);
    r := rules(s, tokens, depth);
    var i := 0;
    while r.None? && i < |tokens.subs|
      invariant i <= |tokens.subs|
      invariant r.None? ==> rules(s, tokens, depth).None?
      invariant r.None? ==> forall k :: 0 <= k < i ==> !Refused(rules, SubText(s, k), depth + 1)
      invariant r.Some? ==> Refused(rules, s, depth)
    {
      r := EvalBuf(rules, SubText(s, i), depth + 1);
      i := i + 1;
    }
  }

  /** Here, or one substitution further in, and never past the limit. */
  lemma RefusedIff(rules: Rules, s: string, depth: nat)
    ensures Refused(rules, s, depth) <==>
              && depth <= MAX_NEST
              && (|| rules(s, Tokenize(s), depth).Some?
                  || exists k :: 0 <= k < |Tokenize(s).subs| && Refused(rules, SubText(s, k), depth + 1))
  {
    hide Tokenize, SubText;
    if Refused(rules, s, depth) {
      var u, n :| 0 <= n && depth + n <= MAX_NEST && Nested(s, u, n) && rules(u, Tokenize(u), depth + n).Some?;
      if n > 0 {
        var k :| 0 <= k < |Tokenize(s).subs| && Nested(SubText(s, k), u, n - 1);
        assert rules(u, Tokenize(u), depth + 1 + (n - 1)).Some?;
        assert Refused(rules, SubText(s, k), depth + 1);
      }
    }
    if depth <= MAX_NEST && rules(s, Tokenize(s), depth).Some? {
      assert Nested(s, s, 0) && rules(s, Tokenize(s), depth + 0).Some?;
    }
    if k :| 0 <= k < |Tokenize(s).subs| && Refused(rules, SubText(s, k), depth + 1) {
      var u, n :| 0 <= n && depth + 1 + n <= MAX_NEST && Nested(SubText(s, k), u, n)
        && rules(u, Tokenize(u), depth + 1 + n).Some?;
      assert Nested(s, u, n + 1) && rules(u, Tokenize(u), depth + (n + 1)).Some?;
    }
  }
}
