/** contrib_inbox: the seen ledger byte by byte, and the protocol over it. Rows
    are appended with plain writes that can stop part-way; the reader takes
    lines through a 256-byte buffer. */
module InboxLedger {
  import opened Text

  const CHUNK: nat := 255
  const MAX_ID: nat := 128

  predicate HexChar(c: char) { '0' <= c <= '9' || 'a' <= c <= 'f' }

  /** ci_hex_id */
  predicate ValidId(id: string) {
    1 <= |id| <= MAX_ID && forall i :: 0 <= i < |id| ==> HexChar(id[i])
  }

  function Row(id: string): string { id + "\n" }

  /* ---- reading ---------------------------------------------------------------- */

  /** What one fgets takes: up to a newline, at most 255 characters. */
  function ChunkLen(s: string): (n: nat)
    ensures n <= |s| && n <= CHUNK && (s != "" ==> n > 0)
  {
    var e := Span(s, '\n');
    if e < CHUNK && e < |s| then e + 1 else if |s| < CHUNK then |s| else CHUNK
  }

  /** The line without its "\r" or "\n". */
  function LineText(c: string): string {
    var n := Span(c, '\n');
    c[..Span(c[..n], '\r')]
  }

  /** ci_seen on a readable ledger: some chunk is the id. */
  predicate Seen(s: string, id: string)
    decreases |s|
  {
    s != "" && (LineText(s[..ChunkLen(s)]) == id || Seen(s[ChunkLen(s)..], id))
  }

  /** The chunk s[..n] cannot grow: it is full or ends in a newline. */
  predicate ClosedChunk(s: string, n: nat)
    requires n <= |s|
  {
    n == CHUNK || (n > 0 && s[n - 1] == '\n')
  }

  /** Characters of the last chunk, if more text would join it. */
  function Open(s: string): (n: nat)
    ensures n <= |s| && n < CHUNK
    decreases |s|
  {
    if s == "" then 0
    else
      var n := ChunkLen(s);
      if ClosedChunk(s, n) then Open(s[n..]) else n
  }

  /** The id stands in a chunk that cannot change any more. */
  predicate Fixed(s: string, id: string)
    decreases |s|
  {
    && s != ""
    && var n := ChunkLen(s);
       ClosedChunk(s, n) && (LineText(s[..n]) == id || Fixed(s[n..], id))
  }

  lemma {:induction false} FixedSeen(s: string, id: string)
    requires Fixed(s, id)
    ensures Seen(s, id)
    decreases |s|
  {
    hide ChunkLen, LineText;
    var n := ChunkLen(s);
    if LineText(s[..n]) != id { FixedSeen(s[n..], id); }
  }

  /** Closed chunks stay as they are. */
  lemma ChunkKept(s: string, x: string)
    requires s != "" && ClosedChunk(s, ChunkLen(s))
    ensures ChunkLen(s + x) == ChunkLen(s) && (s + x)[..ChunkLen(s)] == s[..ChunkLen(s)]
    ensures (s + x)[ChunkLen(s)..] == s[ChunkLen(s)..] + x && ClosedChunk(s + x, ChunkLen(s))
  {
    hide Span;
    var e, n := Span(s, '\n'), ChunkLen(s);
    if e < |s| { SpanExtend(s, x, '\n'); } else { SpanThrough(s, x, '\n'); }
    Tail(s, x, n);
    NoNewlineBefore(s, e);
  }

  lemma NoNewlineBefore(s: string, e: nat)
    requires e == Span(s, '\n')
    ensures forall i :: 0 <= i < e ==> s[i] != '\n'
  {
    forall i | 0 <= i < e ensures s[i] != '\n' { assert s[..e][i] == s[i]; }
  }

  lemma {:induction false} FixedKept(s: string, x: string, id: string)
    requires Fixed(s, id)
    ensures Fixed(s + x, id)
    decreases |s|
  {
    hide ChunkLen, LineText, ClosedChunk;
    var n := ChunkLen(s);
    ChunkKept(s, x);
    if LineText(s[..n]) != id { FixedKept(s[n..], x, id); }
  }

  /** A row appended where no chunk is open is its own chunk. */
  lemma {:induction false} AlignedRow(s: string, id: string)
    requires Open(s) == 0 && ValidId(id)
    ensures Fixed(s + Row(id), id)
    ensures forall x :: Seen(s + Row(id), x) <==> Seen(s, x) || x == id
    decreases |s|
  {
    hide ChunkLen, LineText, ClosedChunk, Row;
    if s == "" {
      assert s + Row(id) == Row(id);
      RowAlone(id);
    } else {
      var n := ChunkLen(s);
      ChunkKept(s, Row(id));
      AlignedRow(s[n..], id);
    }
  }

  lemma RowAlone(id: string)
    requires ValidId(id)
    ensures Fixed(Row(id), id) && forall x :: Seen(Row(id), x) <==> x == id
  {
    hide Span;
    var s := Row(id);
    RowSpan(id);
    assert s[|s|..] == "" && s[..|s|] == s;
    assert LineText(s) == id by {
      assert s[..|id|] == id;
      NoBreaks(id);
      NoReturn(id);
      assert id[..|id|] == id;
    }
    SeenAlone(s, id);
  }

  lemma RowSpan(id: string)
    requires ValidId(id)
    ensures Span(Row(id), '\n') == |id|
  {
    NoBreaks(id);
    assert Row(id)[..|id|] == id;
    SpanFound(Row(id), '\n', |id|);
  }

  lemma NoBreaks(id: string)
    requires ValidId(id)
    ensures '\n' !in id && '\r' !in id
  {
    assert forall i :: 0 <= i < |id| ==> HexChar(id[i]);
  }

  lemma NoReturn(s: string)
    requires '\r' !in s
    ensures Span(s, '\r') == |s|
  {
    assert s[..|s|] == s;
    SpanFound(s, '\r', |s|);
  }

  lemma SeenAlone(s: string, id: string)
    requires s != "" && ChunkLen(s) == |s| && ClosedChunk(s, |s|) && LineText(s) == id
    ensures Fixed(s, id) && forall x :: Seen(s, x) <==> x == id
  {
    hide Span, LineText, ChunkLen;
    assert s[..|s|] == s && s[|s|..] == "";
  }

  /** After a row nothing is open, whatever was before. */
  lemma {:induction false} EndsClosed(s: string)
    requires s != "" && s[|s| - 1] == '\n'
    ensures Open(s) == 0
    decreases |s|
  {
    hide Span;
    var n := ChunkLen(s);
    var e := Span(s, '\n');
    NoNewlineBefore(s, e);
    assert e < |s|;
    if n < |s| {
      EndsClosed(s[n..]);
    } else {
      assert s[n..] == "";
    }
  }

  /** A row appended to an open chunk is not recognised: the exact condition for a
      recorded post to be seen is that no chunk was open. */
  lemma {:induction false} OpenRow(s: string, id: string)
    requires Open(s) != 0 && '\r' !in s && ValidId(id)
    ensures Seen(s + Row(id), id) <==> Fixed(s, id)
    decreases |s|
  {
    hide LineText, Row, ClosedChunk;
    var n := ChunkLen(s);
    if ClosedChunk(s, n) {
      ChunkKept(s, Row(id));
      forall c | c in s[n..] ensures c != '\r' { assert c in s; }
      OpenRow(s[n..], id);
    } else {
      OpenRowLast(s, id);
    }
  }

  /** For every ledger of rows and torn rows and every unseen id: the row just
      recorded is seen exactly if no chunk was open before it. */
  lemma RecordedSeenIff(s: string, id: string)
    requires '\r' !in s && ValidId(id) && !Seen(s, id)
    ensures Seen(s + Row(id), id) <==> Open(s) == 0
  {
    hide Open, Seen, Fixed, Row;
    if Open(s) == 0 {
      AlignedRow(s, id);
    } else {
      OpenRow(s, id);
      if Fixed(s, id) { FixedSeen(s, id); }
    }
  }

  lemma OpenRowLast(s: string, id: string)
    requires s != "" && !ClosedChunk(s, ChunkLen(s)) && '\r' !in s && ValidId(id)
    ensures !Seen(s + Row(id), id)
  {
    hide Span, LineText;
    var e := s + Row(id);
    OpenChunk(s);
    NoBreaks(id);
    RowSpan(id);
    SpanThrough(s, Row(id), '\n');
    assert Span(e, '\n') == |s| + |id|;
    if |e| <= CHUNK {
      assert ChunkLen(e) == |e| && e[..|e|] == e && e[|e|..] == "";
      LongLine(s, id, e);
    } else {
      assert ChunkLen(e) == CHUNK;
      FullLine(s, id, e);
      var k := CHUNK - |s|;
      assert e[CHUNK..] == Row(id)[k..];
      RestOfRow(id, k);
    }
  }

  /** An open chunk is all of the text, short and on one line. */
  lemma OpenChunk(s: string)
    requires s != "" && !ClosedChunk(s, ChunkLen(s))
    ensures |s| < CHUNK && Span(s, '\n') == |s|
  {
    hide Span;
  }

  lemma LongLine(s: string, id: string, e: string)
    requires e == s + Row(id) && s != "" && Span(e, '\n') == |s| + |id| && '\r' !in s && '\r' !in id
    ensures LineText(e) == s + id && LineText(e) != id
  {
    hide Span;
    assert e[..|s| + |id|] == s + id;
    NoReturn(s + id);
    assert (s + id)[..|s| + |id|] == s + id;
  }

  lemma FullLine(s: string, id: string, e: string)
    requires e == s + Row(id) && |e| > CHUNK && |s| < CHUNK && ValidId(id)
    requires Span(e, '\n') == |s| + |id| && '\r' !in s && '\r' !in id
    ensures |LineText(e[..CHUNK])| == CHUNK
  {
    hide Span;
    var c := e[..CHUNK];
    NoNewlineBefore(e, |s| + |id|);
    assert forall i :: 0 <= i < CHUNK ==> c[i] == e[i];
    assert '\n' !in c[..CHUNK];
    SpanFound(c, '\n', CHUNK);
    assert '\r' !in c by {
      forall i | 0 <= i < CHUNK ensures c[i] != '\r' { assert c[i] == (s + id)[i]; }
    }
    assert c[..CHUNK] == c;
    NoReturn(c);
  }

  /** What spills past a full chunk is shorter than the id. */
  lemma RestOfRow(id: string, k: nat)
    requires ValidId(id) && 0 < k <= |id|
    ensures !Seen(Row(id)[k..], id)
  {
    hide Span;
    var r := Row(id)[k..];
    NoBreaks(id);
    assert r == id[k..] + "\n" && '\n' !in id[k..];
    assert r[..|id| - k] == id[k..];
    SpanFound(r, '\n', |id| - k);
    assert ChunkLen(r) == |r| && r[..|r|] == r && r[|r|..] == "";
  }

  /* ---- the protocol ------------------------------------------------------------------ */

  /** One post taken up: how much of its row reached the ledger before the append
      ended, failed or the process died, and whether a public post was tried. */
  datatype Turn = Turn(id: string, written: nat, posted: bool)

  /** What ci_handle does: only unseen ids, and no post before the whole row. */
  predicate ValidTurn(s: string, t: Turn) {
    && ValidId(t.id) && !Seen(s, t.id) && t.written <= |Row(t.id)|
    && (t.posted ==> t.written == |Row(t.id)|)
  }

  function After(s: string, t: Turn): string
    requires t.written <= |Row(t.id)|
  {
    s + Row(t.id)[..t.written]
  }

  /** The ledger after the turns, if they are all valid. */
  predicate ValidRun(s: string, turns: seq<Turn>) {
    turns == [] || (ValidRun(s, turns[..|turns| - 1]) && ValidTurn(Ledger(s, turns[..|turns| - 1]), turns[|turns| - 1]))
  }

  function Ledger(s: string, turns: seq<Turn>): string {
    if turns == [] then s
    else
      var t := turns[|turns| - 1];
      var l := Ledger(s, turns[..|turns| - 1]);
      if t.written <= |Row(t.id)| then After(l, t) else l
  }

  /** Public post attempts for an id. */
  function Attempts(turns: seq<Turn>, id: string): nat {
    if turns == [] then 0
    else
      var t := turns[|turns| - 1];
      Attempts(turns[..|turns| - 1], id) + if t.posted && t.id == id then 1 else 0
  }

  /** Appends that left part of a row behind. */
  function Torn(turns: seq<Turn>): nat {
    if turns == [] then 0
    else
      var t := turns[|turns| - 1];
      Torn(turns[..|turns| - 1]) + if 0 < t.written < |Row(t.id)| then 1 else 0
  }

  function Dirty(s: string): nat { if Open(s) == 0 then 0 else 1 }

  /** Whole rows that went into an open chunk. */
  function Lost(s: string, turns: seq<Turn>): nat {
    if turns == [] then 0
    else
      var t, rest := turns[|turns| - 1], turns[..|turns| - 1];
      Lost(s, rest) + if t.written == |Row(t.id)| && Open(Ledger(s, rest)) != 0 then 1 else 0
  }

  /** Every lost row used up the open chunk a torn append left. */
  lemma {:induction false} LostBound(s: string, turns: seq<Turn>)
    requires ValidRun(s, turns)
    ensures Lost(s, turns) + Dirty(Ledger(s, turns)) <= Torn(turns) + Dirty(s)
    decreases |turns|
  {
    hide Open, Seen;
    if turns != [] {
      var t, rest := turns[|turns| - 1], turns[..|turns| - 1];
      LostBound(s, rest);
      var l := Ledger(s, rest);
      assert Ledger(s, turns) == l + Row(t.id)[..t.written];
      if t.written == |Row(t.id)| {
        assert Row(t.id)[..t.written] == Row(t.id);
        EndsClosed(l + Row(t.id));
      } else if t.written == 0 {
        assert l + Row(t.id)[..0] == l;
      }
    }
  }

  /** Attempts beyond the one that is fixed in the ledger each cost a lost row. */
  lemma {:induction false} AttemptsBound(s: string, turns: seq<Turn>, id: string)
    requires ValidRun(s, turns)
    ensures Attempts(turns, id) <= (if Fixed(Ledger(s, turns), id) then 1 else 0) + Lost(s, turns)
    decreases |turns|
  {
    hide Open, Seen, Fixed;
    if turns != [] {
      var t, rest := turns[|turns| - 1], turns[..|turns| - 1];
      AttemptsBound(s, rest, id);
      var l := Ledger(s, rest);
      var row := Row(t.id)[..t.written];
      assert Ledger(s, turns) == l + row;
      if Fixed(l, id) {
        FixedKept(l, row, id);
        FixedSeen(l, id);
      }
      if t.written == |Row(t.id)| && Open(l) == 0 {
        assert row == Row(t.id);
        AlignedRow(l, t.id);
      }
    }
  }

  /** For every run of passes with crashes and failures anywhere: each id gets at
      most one public post attempt, and one more for each append that left part
      of a row behind. */
  lemma AtMostOnce(s: string, turns: seq<Turn>, id: string)
    requires ValidRun(s, turns)
    ensures Attempts(turns, id) <= 1 + Torn(turns) + Dirty(s)
    ensures Torn(turns) == 0 && Open(s) == 0 ==> Attempts(turns, id) <= 1
  {
    hide Attempts, Torn, Lost, Ledger, ValidRun, Fixed;
    AttemptsBound(s, turns, id);
    LostBound(s, turns);
  }

  /** One more turn. */
  lemma RunAppend(s: string, turns: seq<Turn>, t: Turn)
    requires ValidRun(s, turns) && ValidTurn(Ledger(s, turns), t)
    ensures ValidRun(s, turns + [t]) && Ledger(s, turns + [t]) == After(Ledger(s, turns), t)
    ensures Torn(turns + [t]) == Torn(turns) + if 0 < t.written < |Row(t.id)| then 1 else 0
    ensures forall id :: Attempts(turns + [t], id) == Attempts(turns, id) + if t.posted && t.id == id then 1 else 0
  {
    hide Seen;
    assert (turns + [t])[..|turns|] == turns;
  }

  /** The bound is reached: one torn append, and the same id is posted twice. */
  lemma TornRowRepeats()
    ensures var turns := [Turn("ab", 1, false), Turn("ab", 3, true), Turn("ab", 3, true)];
            ValidRun("", turns) && Torn(turns) == 1 && Attempts(turns, "ab") == 2
  {
    hide Seen, ValidRun, Ledger, Torn, Attempts;
    var a, b := Turn("ab", 1, false), Turn("ab", 3, true);
    NoTurns();
    SmallLedgers();
    assert Row("ab") == "ab\n" && Row("ab")[..1] == "a" && Row("ab")[..3] == "ab\n";
    RunAppend("", [], a);
    assert [] + [a] == [a] && After("", a) == "a";
    RunAppend("", [a], b);
    assert [a] + [b] == [a, b] && After("a", b) == "aab\n";
    RunAppend("", [a, b], b);
    assert [a, b] + [b] == [a, b, b];
  }

  lemma NoTurns()
    ensures ValidRun("", []) && Ledger("", []) == "" && Torn([]) == 0 && forall id :: Attempts([], id) == 0
  {
  }

  lemma SmallLedgers()
    ensures !Seen("", "ab") && !Seen("a", "ab") && !Seen("aab\n", "ab") && ValidId("ab")
  {
    OpenRowLast("a", "ab");
    assert "a" + Row("ab") == "aab\n";
    assert Span("a", '\n') == 1;
    assert "a"[..1] == "a" && "a"[1..] == "";
    assert |LineText("a")| <= 1;
  }
}
