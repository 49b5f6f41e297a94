/** Reading a byte string in consecutive pieces, as hosts read FRU data and SDR records. */
module Chunks {
  import opened Bytes

  function Min(a: int, b: int): (r: int) { if a <= b then a else b }

  /** At most `count` bytes from `offset`. */
  function Piece<T>(s: seq<T>, offset: nat, count: nat): (r: seq<T>)
    requires offset <= |s|
  {
    s[offset..Min(offset + count, |s|)]
  }

  /** What a reader collects that asks for `counts` one after another, each time behind what it already has. */
  function ReadOn<T>(read: (nat, nat) -> seq<T>, offset: nat, counts: seq<nat>): (r: seq<T>)
    decreases |counts|
  {
    if counts == [] then []
    else
      var piece := read(offset, counts[0]);
      piece + ReadOn(read, offset + |piece|, counts[1..])
  }

  function Total(counts: seq<nat>): (r: nat) {
    if counts == [] then 0 else counts[0] + Total(counts[1..])
  }

  /** Where a read of `count` ends. */
  function EndOf<T>(s: seq<T>, offset: nat, count: nat): (r: nat)
    requires offset <= |s|
    ensures offset <= r <= |s| && (r == offset + count || (r == |s| && r <= offset + count))
  {
    Min(offset + count, |s|)
  }

  lemma EndsAdd<T>(s: seq<T>, offset: nat, first: nat, rest: nat)
    requires offset <= |s|
    ensures EndOf(s, EndOf(s, offset, first), rest) == EndOf(s, offset, first + rest)
  {}

  /** The consecutive pieces of a string. */
  function Pieces<T>(s: seq<T>, offset: nat, counts: seq<nat>): (r: seq<T>)
    requires offset <= |s|
    decreases |counts|
  {
    if counts == [] then []
    else Piece(s, offset, counts[0]) + Pieces(s, EndOf(s, offset, counts[0]), counts[1..])
  }

  lemma JoinThree<T>(s: seq<T>, from: nat, offset: nat, next: nat, rest: seq<T>)
    requires from <= offset <= next <= |s|
    ensures s[from..offset] + (s[offset..next] + rest) == s[from..next] + rest
  {}

  /** Whatever the sizes, what came before and the pieces join up, as far as they reach. */
  lemma {:induction false} PiecesJoin<T>(s: seq<T>, from: nat, offset: nat, counts: seq<nat>)
    requires from <= offset <= |s|
    ensures s[from..offset] + Pieces(s, offset, counts) == s[from..EndOf(s, offset, Total(counts))]
    decreases |counts|
  {
    if counts != [] {
      var next := EndOf(s, offset, counts[0]);
      PiecesJoin(s, from, next, counts[1..]);
      EndsAdd(s, offset, counts[0], Total(counts[1..]));
      JoinThree(s, from, offset, next, Pieces(s, next, counts[1..]));
    }
  }

  /** A reader that is given pieces collects them. */
  lemma {:induction false} ReaderCollects<T>(s: seq<T>, read: (nat, nat) -> seq<T>, offset: nat, counts: seq<nat>)
    requires forall o: nat, c: nat {:trigger read(o, c)} | o <= |s| :: read(o, c) == Piece(s, o, c)
    requires offset <= |s|
    ensures ReadOn(read, offset, counts) == Pieces(s, offset, counts)
    decreases |counts|
  {
    if counts != [] {
      ReaderCollects(s, read, EndOf(s, offset, counts[0]), counts[1..]);
    }
  }

  /** So the reader ends up with the string, as far as it has read. */
  lemma ReaderGetsAll<T>(s: seq<T>, read: (nat, nat) -> seq<T>, offset: nat, counts: seq<nat>)
    requires forall o: nat, c: nat {:trigger read(o, c)} | o <= |s| :: read(o, c) == Piece(s, o, c)
    requires offset <= |s|
    ensures ReadOn(read, offset, counts) == s[offset..Min(offset + Total(counts), |s|)]
  {
    ReaderCollects(s, read, offset, counts);
    PiecesJoin(s, offset, offset, counts);
    assert s[offset..offset] + Pieces(s, offset, counts) == Pieces(s, offset, counts);
  }
}
