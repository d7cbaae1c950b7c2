/** Words written in any mixture of bare characters, escapes, single quotes, double
    quotes with substitutions, and line continuations. */
module ShellWords {
  import opened Wrappers
  import opened Text
  import opened ShellScan
  import opened ShellTok
  import opened ShellQuoting
  import opened ShellCommands
  import ShellNesting

  /* ---- double quotes ------------------------------------------------------------------ */

  /** What stands in double quotes: a character, a special one behind a backslash, a
      backslash before an ordinary one, a continuation, and the two substitutions. */
  datatype Part = Letter(c: char) | Guarded(c: char) | Slash | Joint | Paren(code: ShellNesting.Code)
                | Tick(text: string)

  function PartText(p: Part): (s: string)
    ensures s != ""
  {
    match p
    case Letter(c) => [c]
    case Guarded(c) => ['\\', c]
    case Slash => "\\"
    case Joint => "\\\n"
    case Paren(code) => "$(" + (ShellNesting.Source(code) + ")")
    case Tick(code) => "`" + (code + "`")
  }

  /** What it adds to the word. */
  function PartValue(p: Part): string {
    match p
    case Letter(c) => [c]
    case Guarded(c) => [c]
    case Joint => ""
    case _ => PartText(p)
  }

  /** The code recorded for scanning. */
  function PartSubs(p: Part): seq<Sub> {
    match p
    case Paren(code) => if ShellNesting.Source(code) == "" then [] else [Sub(2, |ShellNesting.Source(code)|)]
    case Tick(code) => if code == "" then [] else [Sub(1, |code|)]
    case _ => []
  }

  /** The part is read as that when this character follows it. */
  predicate GoodPart(p: Part, next: char) {
    match p
    case Letter(c) => c !in "\"\\`" && (c == '$' ==> next != '(')
    case Guarded(c) => c in "\"\\$`"
    case Slash => next !in "\"\\$`\n"
    case Joint => true
    case Paren(code) => ShellNesting.Plain(code) && 2 * ShellNesting.Depth(code) <= MAX_LEVEL
    case Tick(code) => Ticked(code)
  }

  function DataText(d: seq<Part>): string {
    if d == [] then "" else PartText(d[0]) + DataText(d[1..])
  }

  function DataValue(d: seq<Part>): string {
    if d == [] then "" else PartValue(d[0]) + DataValue(d[1..])
  }

  function DataSubs(d: seq<Part>): seq<Sub> {
    if d == [] then [] else PartSubs(d[0]) + Shifted(DataSubs(d[1..]), |PartText(d[0])|)
  }

  predicate GoodData(d: seq<Part>) {
    d != [] ==> GoodPart(d[0], (DataText(d[1..]) + "\"")[0]) && GoodData(d[1..])
  }

  lemma PieceOfPart(p: Part, after: string)
    requires after != "" && GoodPart(p, after[0])
    ensures (PartText(p) + after)[0] != '"'
    ensures QuotedPiece(PartText(p) + after) == Piece(|PartText(p)|, PartValue(p), PartSubs(p))
  {
    hide SkipParen, SkipTick, ShellNesting.Plain, ShellNesting.Depth, ShellNesting.Source, Ticked;
    match p
    case Letter(c) =>
      assert ([c] + after)[1] == after[0];
    case Guarded(c) =>
      assert (['\\', c] + after)[1] == c;
    case Slash =>
      assert ("\\" + after)[1] == after[0];
    case Joint =>
      assert ("\\\n" + after)[1] == '\n';
    case Paren(code) =>
      PieceOfParen(code, after);
    case Tick(code) =>
      PieceOfTick(code, after);
  }

  lemma PieceOfParen(code: ShellNesting.Code, after: string)
    requires ShellNesting.Plain(code) && 2 * ShellNesting.Depth(code) <= MAX_LEVEL
    ensures var r := PartText(Paren(code)) + after;
            r[0] == '$'
              && QuotedPiece(r) == Piece(|PartText(Paren(code))|, PartText(Paren(code)), PartSubs(Paren(code)))
  {
    hide SkipParen, ShellNesting.Plain, ShellNesting.Depth, ShellNesting.Source;
    var c, text := ShellNesting.Source(code), PartText(Paren(code));
    var close := ")" + after;
    var r := text + after;
    ShellNesting.SkipCode(code, close, 1, 0);
    ShellNesting.CloseParen(close, 0);
    assert r == "$(" + (c + close);
    assert r[0] == '$' && r[1] == '(' && r[2..] == c + close && r[|c| + 2] == ')' && r[..|c| + 3] == text;
    assert Subst(r) == Some((|c| + 3, 2, |c| + 2));
  }

  lemma PieceOfTick(code: string, after: string)
    requires Ticked(code)
    ensures var r := PartText(Tick(code)) + after;
            r[0] == '`' && QuotedPiece(r) == Piece(|PartText(Tick(code))|, PartText(Tick(code)), PartSubs(Tick(code)))
  {
    hide SkipTick, Ticked;
    var text := PartText(Tick(code));
    var r := text + after;
    SkipTicked(code, after);
    assert r == "`" + (code + ("`" + after));
    assert r[0] == '`' && r[1..] == code + ("`" + after) && r[..|code| + 2] == text;
    assert Subst(r) == Some((|code| + 2, 1, |code| + 1));
  }

  /** Any such data up to the closing quote, and what it adds. */
  lemma {:induction false} ReadData(d: seq<Part>, rest: string)
    requires GoodData(d)
    ensures Quoted(DataText(d) + ("\"" + rest)) == Dq(|DataText(d)| + 1, DataValue(d), DataSubs(d), true)
    decreases |d|
  {
    hide QuotedPiece, GoodPart, PartText, PartValue, PartSubs;
    var tail := "\"" + rest;
    if d == [] {
      assert DataText(d) + tail == tail;
    } else {
      var p, more := d[0], DataText(d[1..]) + tail;
      var r := PartText(p) + more;
      Assoc(PartText(p), DataText(d[1..]), tail);
      Assoc(DataText(d[1..]), "\"", rest);
      assert more[0] == (DataText(d[1..]) + "\"")[0];
      PieceOfPart(p, more);
      assert r[|PartText(p)|..] == more;
      ReadData(d[1..], rest);
    }
  }

  /* ---- the pieces of a word ------------------------------------------------------------- */

  datatype Atom = Letters(text: string) | Behind(c: char) | Singly(text: string) | Doubly(data: seq<Part>) | Continued

  function AtomText(a: Atom): (s: string) {
    match a
    case Letters(w) => w
    case Behind(c) => ['\\', c]
    case Singly(s) => "'" + (s + "'")
    case Doubly(d) => "\"" + (DataText(d) + "\"")
    case Continued => "\\\n"
  }

  function AtomValue(a: Atom): string {
    match a
    case Letters(w) => w
    case Behind(c) => [c]
    case Singly(s) => s
    case Doubly(d) => DataValue(d)
    case Continued => ""
  }

  function AtomSubs(a: Atom): seq<Sub> {
    if a.Doubly? then Shifted(DataSubs(a.data), 1) else []
  }

  /** The atom is read as that, in or before a word, when this text follows it. */
  predicate GoodAtom(a: Atom, inside: bool, after: string) {
    match a
    case Letters(w) =>
      w != "" && Bare(w) && (inside || w[0] != '#') && (w[|w| - 1] == '$' ==> after == "" || after[0] != '(')
    case Behind(c) => c != '\n'
    case Singly(s) => '\'' !in s
    case Doubly(d) => GoodData(d)
    case Continued => true
  }

  /** A bare number so far. */
  predicate AtomNumber(a: Atom) {
    a.Continued? || (a.Letters? && Numeral(a.text))
  }

  /** The word being built after an atom. */
  function Grow(w: Option<Word>, a: Atom): Option<Word> {
    if a.Continued? then w
    else
      var text := if w.Some? then w.value.text else "";
      Some(Word(text + AtomValue(a), (w.Some? ==> w.value.digits) && AtomNumber(a)))
  }

  /** An atom is one or more steps that change the word and nothing else. */
  lemma ReadAtom(a: Atom, rest: string, t: Tok) returns (e: Tok)
    requires GoodAtom(a, t.word.Some?, rest) && |t.out.subs| + |AtomSubs(a)| <= MAX_SUBS
    ensures Run(AtomText(a) + rest, t) == Run(rest, e)
    ensures e == t.(word := Grow(t.word, a), apos := e.apos, i := t.i + |AtomText(a)|,
                    out := t.out.(subs := t.out.subs + Shifted(AtomSubs(a), t.i)))
  {
    hide Run, Step, DataText, DataValue, DataSubs, GoodData;
    assert t.out.subs + Shifted([], t.i) == t.out.subs;
    match a
    case Letters(w) =>
      ReadBare(w, rest, t);
      e := Pushed(t, w);
    case Behind(c) =>
      var r := ['\\', c] + rest;
      StepEscape(r, t);
      e := AddQuoted(t, [c]).(i := t.i + 2);
      assert r[2..] == rest;
      RunStep(r, t, e, rest);
    case Singly(s) =>
      var r := "'" + (s + "'") + rest;
      assert r == "'" + s + "'" + rest;
      ReadPlain(r, s, rest, t);
      e := AddQuoted(t, s).(i := t.i + |s| + 2);
    case Doubly(d) =>
      e := ReadDoubly(d, rest, t);
    case Continued =>
      var r := "\\\n" + rest;
      StepContinued(r, t);
      e := t.(i := t.i + 2);
      assert r[2..] == rest;
      RunStep(r, t, e, rest);
  }

  lemma StepContinued(r: string, t: Tok)
    requires |r| >= 2 && r[0] == '\\' && r[1] == '\n'
    ensures Step(r, t) == t.(i := t.i + 2)
  {
  }

  lemma ReadDoubly(d: seq<Part>, rest: string, t: Tok) returns (e: Tok)
    requires GoodData(d) && |t.out.subs| + |DataSubs(d)| <= MAX_SUBS
    ensures Run(AtomText(Doubly(d)) + rest, t) == Run(rest, e)
    ensures e == t.(word := Grow(t.word, Doubly(d)), apos := e.apos, i := t.i + |AtomText(Doubly(d))|,
                    out := t.out.(subs := t.out.subs + Shifted(AtomSubs(Doubly(d)), t.i)))
  {
    hide Run, Step, DataText, DataValue, DataSubs, GoodData, Quoted;
    var text := DataText(d);
    var tail := text + ("\"" + rest);
    var r := "\"" + tail;
    Assoc("\"", text + "\"", rest);
    Assoc(text, "\"", rest);
    assert AtomText(Doubly(d)) + rest == r;
    ReadData(d, rest);
    assert r[0] == '"' && r[1..] == tail;
    e := StepDoubly(r, d, t);
    assert r[|text| + 2..] == rest by { assert tail[|text| + 1..] == rest; }
    RunStep(r, t, e, rest);
  }

  lemma StepDoubly(r: string, d: seq<Part>, t: Tok) returns (e: Tok)
    requires r != "" && r[0] == '"' && Quoted(r[1..]) == Dq(|DataText(d)| + 1, DataValue(d), DataSubs(d), true)
    requires |t.out.subs| + |DataSubs(d)| <= MAX_SUBS
    ensures Step(r, t) == e
    ensures e == t.(word := Grow(t.word, Doubly(d)), apos := e.apos, i := t.i + |AtomText(Doubly(d))|,
                    out := t.out.(subs := t.out.subs + Shifted(AtomSubs(Doubly(d)), t.i)))
  {
    hide Quoted, DataText, DataValue, DataSubs, Step;
    StepQuoted(r, t);
    e := DoubleQuote(r, t);
    var more := Shifted(DataSubs(d), t.i + 1);
    assert Shifted(Shifted(DataSubs(d), 1), t.i) == more;
  }

  lemma StepQuoted(r: string, t: Tok)
    requires r != "" && r[0] == '"'
    ensures Step(r, t) == DoubleQuote(r, t)
  {
    hide DoubleQuote;
  }

  /* ---- whole words ------------------------------------------------------------------------- */

  function WordText(w: seq<Atom>): string {
    if w == [] then "" else AtomText(w[0]) + WordText(w[1..])
  }

  function WordValue(w: seq<Atom>): string {
    if w == [] then "" else AtomValue(w[0]) + WordValue(w[1..])
  }

  function WordSubs(w: seq<Atom>): seq<Sub> {
    if w == [] then [] else AtomSubs(w[0]) + Shifted(WordSubs(w[1..]), |AtomText(w[0])|)
  }

  /** There is a word at all, not only continuations. */
  predicate Written(w: seq<Atom>) {
    exists i :: 0 <= i < |w| && !w[i].Continued?
  }

  predicate Number(w: seq<Atom>) {
    forall i :: 0 <= i < |w| ==> AtomNumber(w[i])
  }

  predicate GoodWord(w: seq<Atom>, inside: bool, after: string) {
    w != [] ==> GoodAtom(w[0], inside, WordText(w[1..]) + after)
                && GoodWord(w[1..], inside || !w[0].Continued?, after)
  }

  function GrowAll(o: Option<Word>, w: seq<Atom>): Option<Word>
    decreases |w|
  {
    if w == [] then o else GrowAll(Grow(o, w[0]), w[1..])
  }

  /** What a word amounts to: its text, and whether it is a bare number. */
  lemma {:induction false} GrowsTo(o: Option<Word>, w: seq<Atom>)
    ensures GrowAll(o, w) ==
            if !Written(w) then o
            else Some(Word((if o.Some? then o.value.text else "") + WordValue(w),
                           (o.Some? ==> o.value.digits) && Number(w)))
    decreases |w|
  {
    hide AtomValue, AtomNumber;
    if w != [] {
      var more := w[1..];
      GrowsTo(Grow(o, w[0]), more);
      assert Written(w) <==> !w[0].Continued? || Written(more) by { WrittenMore(w); }
      assert Number(w) <==> AtomNumber(w[0]) && Number(more) by { NumberMore(w); }
      if !Written(more) { NotWritten(more); }
      if w[0].Continued? {
        assert AtomValue(w[0]) == "" && AtomNumber(w[0]) by { ContinuedAdds(); }
      }
      var was := if o.Some? then o.value.text else "";
      Assoc(was, AtomValue(w[0]), WordValue(more));
      assert WordValue(more) == "" ==> AtomValue(w[0]) + WordValue(more) == AtomValue(w[0]);
      assert "" + WordValue(more) == WordValue(more);
    }
  }

  lemma ContinuedAdds()
    ensures AtomValue(Continued) == "" && AtomNumber(Continued) && AtomSubs(Continued) == []
  {
  }

  lemma WrittenMore(w: seq<Atom>)
    requires w != []
    ensures Written(w) <==> !w[0].Continued? || Written(w[1..])
  {
    if i :| 0 <= i < |w| && !w[i].Continued? {
      if i > 0 { assert w[1..][i - 1] == w[i]; }
    }
    if i :| 0 <= i < |w[1..]| && !w[1..][i].Continued? { assert w[i + 1] == w[1..][i]; }
  }

  lemma NumberMore(w: seq<Atom>)
    requires w != []
    ensures Number(w) <==> AtomNumber(w[0]) && Number(w[1..])
  {
    hide AtomNumber;
    if AtomNumber(w[0]) && Number(w[1..]) {
      forall i | 0 <= i < |w| ensures AtomNumber(w[i]) {
        if i > 0 { assert w[i] == w[1..][i - 1]; }
      }
    }
  }

  lemma {:induction false} NotWritten(w: seq<Atom>)
    requires !Written(w)
    ensures WordValue(w) == "" && Number(w)
    decreases |w|
  {
    if w != [] {
      WrittenMore(w);
      NotWritten(w[1..]);
      NumberMore(w);
      assert w[0] == Continued;
    }
  }

  lemma {:induction false} ReadAtoms(w: seq<Atom>, rest: string, t: Tok) returns (e: Tok)
    requires GoodWord(w, t.word.Some?, rest) && |t.out.subs| + |WordSubs(w)| <= MAX_SUBS
    ensures Run(WordText(w) + rest, t) == Run(rest, e)
    ensures e == t.(word := GrowAll(t.word, w), apos := e.apos, i := t.i + |WordText(w)|,
                    out := t.out.(subs := t.out.subs + Shifted(WordSubs(w), t.i)))
    decreases |w|
  {
    hide Run, AtomText, AtomValue, AtomSubs, GoodAtom, AtomNumber;
    if w == [] {
      e := t;
      assert WordText(w) + rest == rest && t.out.subs + Shifted([], t.i) == t.out.subs;
    } else {
      var a, more := w[0], WordText(w[1..]);
      Assoc(AtomText(a), more, rest);
      var f := ReadAtom(a, more + rest, t);
      GrowKeeps(t.word, a);
      e := ReadAtoms(w[1..], rest, f);
      SubsAdd(t.out.subs, AtomSubs(a), WordSubs(w[1..]), |AtomText(a)|, t.i);
    }
  }

  lemma GrowKeeps(o: Option<Word>, a: Atom)
    ensures Grow(o, a).Some? == (o.Some? || !a.Continued?)
  {
  }

  lemma SubsAdd(subs: seq<Sub>, a: seq<Sub>, b: seq<Sub>, n: nat, i: nat)
    ensures subs + Shifted(a, i) + Shifted(b, i + n) == subs + Shifted(a + Shifted(b, n), i)
  {
  }

  /** A word that starts from nothing. */
  lemma ReadWritten(w: seq<Atom>, rest: string, t: Tok) returns (e: Tok)
    requires GoodWord(w, false, rest) && t.word.None? && |t.out.subs| + |WordSubs(w)| <= MAX_SUBS
    ensures Run(WordText(w) + rest, t) == Run(rest, e)
    ensures e == t.(word := if Written(w) then Some(Word(WordValue(w), Number(w))) else None,
                    apos := e.apos, i := t.i + |WordText(w)|,
                    out := t.out.(subs := t.out.subs + Shifted(WordSubs(w), t.i)))
  {
    hide Run, WordText, WordValue, WordSubs, GoodWord, Number, Written, GrowAll;
    e := ReadAtoms(w, rest, t);
    GrowsTo(None, w);
    assert "" + WordValue(w) == WordValue(w);
  }

  /** The first character of a written word is none of an operator's. */
  lemma WordStarts(w: seq<Atom>, rest: string)
    requires GoodWord(w, false, rest) && w != []
    ensures WordText(w) != "" && (WordText(w) + rest)[0] !in "<>&|(\n"
  {
    hide DataText, GoodData;
    var s := AtomText(w[0]);
    assert s != "" && s[0] !in "<>&|(\n";
    assert WordText(w)[0] == s[0];
  }
}
