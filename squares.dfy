/** Square arithmetic of the board: the packed 0x88 move index and the
    storage cell of the piece grid. */
module Squares {

  /** A square as (file, rank); rank 0 is White's back rank. */
  type Square = (int, int)

  predicate OnBoard(sq: Square)
  {
    0 <= sq.0 < 8 && 0 <= sq.1 < 8
  }

  /** Swift's integer `/`, which truncates toward zero. */
  function Quot(a: int, b: int): (q: int)
    requires b > 0
    ensures a >= 0 ==> 0 <= a - b * q < b
    ensures a < 0 ==> -b < a - b * q <= 0
  {
    if a >= 0 then a / b else -((-a) / b)
  }

  /** Swift's integer `%`, whose result takes the sign of the dividend. */
  function Rem(a: int, b: int): (r: int)
    requires b > 0
    ensures a >= 0 ==> r == a % b
    ensures a < 0 ==> r == -((-a) % b)
  {
    a - b * Quot(a, b)
  }

  /** Decodes a packed index `row * 16 + file` (row 0 at the top, as the
      move generator numbers them) into (file, rank). */
  function Locate(index: int): (sq: Square)
    ensures index >= 0 ==> sq == (index % 16, 7 - index / 16)
  {
    (Rem(index, 16), 7 - Quot(index, 16))
  }

  /** The packed indices that name a board square: file 8..15 of each row is off the board. */
  predicate IsPacked(index: int)
  {
    0 <= index < 128 && index % 16 < 8
  }

  /** Encodes a square as a packed index; the inverse of Locate. */
  function Pack(sq: Square): int
  {
    (7 - sq.1) * 16 + sq.0
  }

  lemma LocateRowFile(row: int, file: int)
    requires 0 <= row < 8 && 0 <= file < 8
    ensures Locate(row * 16 + file) == (file, 7 - row)
    ensures OnBoard(Locate(row * 16 + file))
  {
  }

  /** Locate lands on the board exactly for the packed indices; every other
      integer, negative ones included, decodes to a square outside it. */
  lemma LocateOnBoardIff(index: int)
    ensures OnBoard(Locate(index)) <==> IsPacked(index)
  {
    if index < 0 {
      var q := Quot(index, 16);
      assert q <= 0;
      if q == 0 {
        assert Rem(index, 16) == index;
      }
    }
  }

  lemma LocatePack(sq: Square)
    requires OnBoard(sq)
    ensures IsPacked(Pack(sq)) && Locate(Pack(sq)) == sq
  {
    LocateRowFile(7 - sq.1, sq.0);
  }

  lemma PackLocate(index: int)
    requires IsPacked(index)
    ensures Pack(Locate(index)) == index
  {
  }

  /** Two packed indices that decode to the same square are equal. */
  lemma LocateInjective(i: int, j: int)
    requires IsPacked(i) && IsPacked(j)
    requires Locate(i) == Locate(j)
    ensures i == j
  {
    PackLocate(i);
    PackLocate(j);
  }

  /** Storage cell of `pieces[file][rank]` in the 64-cell grid. */
  function Cell(sq: Square): (c: nat)
    requires OnBoard(sq)
    ensures c < 64 && c / 8 == sq.0 && c % 8 == sq.1
  {
    sq.0 * 8 + sq.1
  }

  /** The square stored in a cell; the inverse of Cell. */
  function SquareOf(c: int): (sq: Square)
    requires 0 <= c < 64
    ensures OnBoard(sq) && Cell(sq) == c
  {
    (c / 8, c % 8)
  }

  lemma CellInjective(a: Square, b: Square)
    requires OnBoard(a) && OnBoard(b) && Cell(a) == Cell(b)
    ensures a == b
  {
  }
}
