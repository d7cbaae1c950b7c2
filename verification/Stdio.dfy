/** Reading a text through a fixed line buffer. */
module Stdio {
  import opened Bytes

  const NEWLINE: byte := 10

  /** How many bytes fgets takes from a text when the buffer has room for that many. */
  function FgetsLen(text: bytes, room: nat): (n: nat)
    ensures n <= |text| && n <= room
    ensures text != [] && room > 0 ==> n > 0
  {
    if text == [] || room == 0 then 0
    else if text[0] == NEWLINE then 1
    else 1 + FgetsLen(text[1..], room - 1)
  }

  function Concat(lines: seq<bytes>): bytes {
    if lines == [] then [] else lines[0] + Concat(lines[1..])
  }

  /** The pieces fgets cuts a text into. */
  function Pieces(text: bytes, room: nat): (ps: seq<bytes>)
    requires room > 0
    ensures Concat(ps) == text
    ensures forall i :: 0 <= i < |ps| ==> Piece(ps[i], room)
    decreases |text|
  {
    if text == [] then []
    else
      var n := FgetsLen(text, room);
      FgetsPiece(text, room);
      var first, rest := text[..n], Pieces(text[n..], room);
      var all := [first] + rest;
      assert all[0] == first && all[1..] == rest && text == first + text[n..];
      all
  }

  /** At most a buffer full, with a newline only at the end. */
  ghost predicate Piece(p: bytes, room: nat) {
    0 < |p| <= room && forall i :: 0 <= i < |p| - 1 ==> p[i] != NEWLINE
  }

  predicate Ended(p: bytes) {
    p != [] && p[|p| - 1] == NEWLINE
  }

  /** Pieces that are lines: only the last may lack its newline. */
  ghost predicate Lines(ps: seq<bytes>, room: nat) {
    && (forall i :: 0 <= i < |ps| ==> Piece(ps[i], room))
    && (forall i :: 0 <= i < |ps| - 1 ==> Ended(ps[i]))
  }

  lemma {:induction false} FgetsPiece(text: bytes, room: nat)
    requires text != [] && room > 0
    ensures Piece(text[..FgetsLen(text, room)], room)
  {
    var n := FgetsLen(text, room);
    if text[0] != NEWLINE && text[1..] != [] && room > 1 {
      FgetsPiece(text[1..], room - 1);
      var m := FgetsLen(text[1..], room - 1);
      forall i | 0 <= i < n - 1 ensures text[..n][i] != NEWLINE {
        if i > 0 { assert text[..n][i] == text[1..][..m][i - 1]; }
      }
    }
  }

  /** A line is taken whole, and so is a last piece. */
  lemma {:induction false} FgetsTakes(p: bytes, rest: bytes, room: nat)
    requires Piece(p, room) && (Ended(p) || rest == [])
    ensures FgetsLen(p + rest, room) == |p|
  {
    var t := p + rest;
    assert t[0] == p[0] && t[1..] == p[1..] + rest;
    if |p| > 1 {
      FgetsTakes(p[1..], rest, room - 1);
    }
  }

  /** Lines written one after another are read back as the same lines. */
  lemma {:induction false} PiecesJoined(ps: seq<bytes>, room: nat)
    requires room > 0 && Lines(ps, room)
    ensures Pieces(Concat(ps), room) == ps
    decreases |ps|
  {
    hide Piece, Ended, FgetsLen;
    if ps != [] {
      var text, rest := Concat(ps), Concat(ps[1..]);
      assert |ps| == 1 ==> ps[1..] == [];
      assert |ps[0]| > 0 by { PieceNotEmpty(ps[0], room); }
      assert Lines(ps[1..], room);
      FgetsTakes(ps[0], rest, room);
      assert text[..|ps[0]|] == ps[0] && text[|ps[0]|..] == rest;
      PiecesJoined(ps[1..], room);
      assert ps == [ps[0]] + ps[1..];
    }
  }

  lemma PieceNotEmpty(p: bytes, room: nat)
    requires Piece(p, room)
    ensures p != []
  {
  }
}
