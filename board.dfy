/** The board's piece grid and how a move changes it. */
module ChessBoard {
  import opened ChessTypes
  import opened Squares
  import opened Fen

  /** A piece object of the board. Its side never changes; its kind changes
      on promotion and its recorded square whenever the board moves it. */
  class Piece {
    const side: Side
    var kind: Kind
    var boardSpace: Square

    constructor (side: Side, kind: Kind, space: Square)
      ensures this.side == side && this.kind == kind && boardSpace == space
    {
      this.side := side;
      this.kind := kind;
      boardSpace := space;
    }

    method SetSpace(x: int, y: int)
      modifies this
      ensures boardSpace == (x, y) && kind == old(kind)
    {
      boardSpace := (x, y);
    }

    method SetKind(k: Kind)
      modifies this
      ensures kind == k && boardSpace == old(boardSpace)
    {
      kind := k;
    }
  }

  /** The contents of the 64 cells, cell Cell((file, rank)) holding `pieces[file][rank]`. */
  type Grid = seq<Piece?>

  ghost function Occupants(g: Grid): set<Piece>
  {
    set p: Piece | p in g
  }

  /** No piece object sits in two cells. */
  ghost predicate Injective(g: Grid)
  {
    forall a, b | 0 <= a < b < |g| && g[a] != null :: g[a] != g[b]
  }

  /** Every piece in the grid records the square it sits on. */
  ghost predicate Consistent(g: Grid)
    reads Occupants(g)
  {
    |g| == 64 && forall c | 0 <= c < 64 && g[c] != null :: g[c].boardSpace == SquareOf(c)
  }

  /** Whether a cell holds what the loader writes for an entry. */
  ghost predicate Holds(p: Piece?, e: Entry)
    reads p
  {
    if e.None? then p == null else p != null && p.side == e.value.0 && p.kind == e.value.1
  }

  lemma ConsistentInjective(g: Grid)
    requires Consistent(g)
    ensures Injective(g)
  {
  }

  // ----- Steps of a move, as functions of the grid

  /** Steps 1 to 3 of a move: the mover's recorded square is cleared, then the mover is put on `to`. */
  function Placed(g: Grid, from: Square, to: Square, p: Piece): (h: Grid)
    requires |g| == 64 && OnBoard(from) && OnBoard(to)
    ensures |h| == 64
  {
    g[Cell(from) := null][Cell(to) := p]
  }

  /** The piece a move captures: whatever other piece stands on `to` once `from` is cleared. */
  function CapturedBy(g: Grid, from: Square, to: Square, p: Piece): set<Piece>
    requires |g| == 64 && OnBoard(from) && OnBoard(to)
  {
    var at := g[Cell(from) := null][Cell(to)];
    if at != null && at != p then {at} else {}
  }

  /** White castles on rank 0, Black on rank 7. */
  function CastleRank(side: Side): int
  {
    if side == White then 0 else 7
  }

  /** The rook's (from, to) squares for a castle whose king lands on `kingFile`. */
  function RookMove(kingFile: int, side: Side): Option<(Square, Square)>
  {
    if kingFile == 6 then Some(((7, CastleRank(side)), (5, CastleRank(side))))
    else if kingFile == 2 then Some(((0, CastleRank(side)), (3, CastleRank(side))))
    else None
  }

  /** The grid after the rook of a castle has been moved (or nil moved, if no rook is there). */
  function Castled(g: Grid, kingFile: int, side: Side): (h: Grid)
    requires |g| == 64
    ensures |h| == 64
  {
    match RookMove(kingFile, side)
    case None => g
    case Some((a, b)) => g[Cell(a) := null][Cell(b) := g[Cell(a)]]
  }

  /** The packed index of the pawn an en-passant capture takes, if the move names an en-passant square. */
  function EnPassantTarget(turn: Side, square: Option<int>): Option<int>
  {
    if square.Some? && square.value > -1 then
      Some(if turn == Black then square.value - 16 else square.value + 16)
    else None
  }

  /** The en-passant branch can run without trapping: the target is on the board and occupied. */
  predicate EnPassantReady(g: Grid, turn: Side, square: Option<int>)
    requires |g| == 64
  {
    var t := EnPassantTarget(turn, square);
    t.Some? ==> OnBoard(Locate(t.value)) && g[Cell(Locate(t.value))] != null
  }

  /** The piece an en-passant capture takes off the display. */
  function EnPassantVictim(g: Grid, turn: Side, square: Option<int>): set<Piece>
    requires |g| == 64 && EnPassantReady(g, turn, square)
  {
    var t := EnPassantTarget(turn, square);
    if t.None? then {} else {g[Cell(Locate(t.value))]}
  }

  /** A move can be applied to piece `p` recorded on `from` without trapping. */
  predicate CanMove(g: Grid, from: Square, move: GameMove, p: Piece)
  {
    |g| == 64 && OnBoard(from) && OnBoard(Locate(move.toIndex))
    && (IsPromotion(move.flag) ==> move.promotionPiece.Some?)
    && (move.flag.EnPassant? ==>
          EnPassantReady(Placed(g, from, Locate(move.toIndex), p), move.side, move.epSquare))
  }

  /** The grid after a whole move: only castling changes more cells than steps 1 to 3. */
  function AfterMove(g: Grid, from: Square, move: GameMove, p: Piece): (h: Grid)
    requires |g| == 64 && OnBoard(from) && OnBoard(Locate(move.toIndex))
    ensures |h| == 64
  {
    var to := Locate(move.toIndex);
    var h := Placed(g, from, to, p);
    if IsCastle(move.flag) then Castled(h, to.0, move.side) else h
  }


  // ----- Properties of the move steps

  /** Steps 1 to 3 square by square: `to` holds the mover, `from` is empty unless it is `to`,
      every other square keeps its occupant. */
  lemma PlacedSquares(g: Grid, from: Square, to: Square, p: Piece)
    requires |g| == 64 && OnBoard(from) && OnBoard(to)
    ensures forall sq | OnBoard(sq) ::
      Placed(g, from, to, p)[Cell(sq)] == (if sq == to then p else if sq == from then null else g[Cell(sq)])
  {
  }

  /** Steps 1 to 3 keep every piece in at most one cell, and change the set of pieces in the grid
      exactly by adding the mover and dropping the piece on `from` and the captured piece. */
  lemma PlacedOccupants(g: Grid, from: Square, to: Square, p: Piece)
    requires |g| == 64 && OnBoard(from) && OnBoard(to) && Injective(g)
    requires p in g ==> g[Cell(from)] == p
    ensures Injective(Placed(g, from, to, p))
    ensures forall q: Piece :: q in Occupants(Placed(g, from, to, p)) <==>
      q == p || (q in Occupants(g) && q != g[Cell(from)] && q !in CapturedBy(g, from, to, p))
  {
    var h := Placed(g, from, to, p);
    forall a, b | 0 <= a < b < 64 && h[a] != null ensures h[a] != h[b] {
    }
    forall q: Piece
      ensures q in Occupants(h) <==> q == p || (q in Occupants(g) && q != g[Cell(from)] && q !in CapturedBy(g, from, to, p))
    {
      if q in Occupants(g) && q != g[Cell(from)] && q !in CapturedBy(g, from, to, p) {
        var c :| 0 <= c < 64 && g[c] == q;
        assert h[c] == q;
      }
      if q == p {
        assert h[Cell(to)] == p;
      }
    }
  }

  /** The rook step of a castle, square by square. */
  lemma CastledSquares(g: Grid, kingFile: int, side: Side)
    requires |g| == 64
    ensures var r := CastleRank(side);
      var h := Castled(g, kingFile, side);
      && (kingFile == 6 ==>
            (h[Cell((5, r))] == g[Cell((7, r))] && h[Cell((7, r))] == null
             && forall sq | OnBoard(sq) && sq != (5, r) && sq != (7, r) :: h[Cell(sq)] == g[Cell(sq)]))
      && (kingFile == 2 ==>
            (h[Cell((3, r))] == g[Cell((0, r))] && h[Cell((0, r))] == null
             && forall sq | OnBoard(sq) && sq != (3, r) && sq != (0, r) :: h[Cell(sq)] == g[Cell(sq)]))
      && (kingFile != 6 && kingFile != 2 ==> h == g)
  {
  }

  /** The rook step keeps every piece in at most one cell, and only a piece standing on the
      rook's destination (other than the rook) leaves the grid. */
  lemma CastledOccupants(g: Grid, kingFile: int, side: Side)
    requires |g| == 64 && Injective(g)
    ensures Injective(Castled(g, kingFile, side))
    ensures forall q: Piece :: q in Occupants(Castled(g, kingFile, side)) <==>
      q in Occupants(g) && match RookMove(kingFile, side)
        case None => true
        case Some((a, b)) => q != g[Cell(b)] || q == g[Cell(a)]
  {
    match RookMove(kingFile, side)
    case None =>
    case Some((a, b)) =>
      var h := Castled(g, kingFile, side);
      assert h == g[Cell(a) := null][Cell(b) := g[Cell(a)]];
      forall x, y | 0 <= x < y < 64 && h[x] != null ensures h[x] != h[y] {
      }
      forall q: Piece
        ensures q in Occupants(h) <==> q in Occupants(g) && (q != g[Cell(b)] || q == g[Cell(a)])
      {
        if q in Occupants(g) && q != g[Cell(b)] && q != g[Cell(a)] {
          var c :| 0 <= c < 64 && g[c] == q;
          assert h[c] == q;
        }
        if q == g[Cell(a)] {
          assert h[Cell(b)] == q;
        }
      }
  }

  /** The rook step never touches the king's destination square. */
  lemma CastleKeepsKing(g: Grid, king: Piece, move: GameMove)
    requires |g| == 64 && OnBoard(Locate(move.toIndex)) && g[Cell(Locate(move.toIndex))] == king
    ensures king in Occupants(Castled(g, Locate(move.toIndex).0, move.side))
  {
    var to := Locate(move.toIndex);
    CastledSquares(g, to.0, move.side);
    assert Castled(g, to.0, move.side)[Cell(to)] == king;
  }

  // ----- What the placement loader has written

  /** After the loader's writes `w`: grid `g` holds, on each written square, a piece of `made` for
      the entry recording the square one file to the right (or nil), and everywhere else what
      `orig` held. */
  ghost predicate Loaded(g: Grid, orig: Grid, w: seq<Entry>, made: set<Piece>)
    reads Occupants(g)
  {
    && |g| == 64 && |orig| == 64 && Injective(g)
    && (forall sq | OnBoard(sq) && WriteIndex(sq) < |w| ::
          Holds(g[Cell(sq)], w[WriteIndex(sq)])
          && (g[Cell(sq)] != null ==> g[Cell(sq)] in made && g[Cell(sq)].boardSpace == (sq.0 + 1, sq.1)))
    && (forall sq | OnBoard(sq) && WriteIndex(sq) >= |w| :: g[Cell(sq)] == orig[Cell(sq)])
  }

  /** The loader's counters: file i of rank j after k writes; rank -1 only once all 64 are written. */
  predicate Cursor(i: int, j: int, k: int)
  {
    0 <= i < 8 && -1 <= j <= 7 && (j == -1 ==> i == 0) && k == (7 - j) * 8 + i
  }

  /** The loader's outer loop moving on to rank r. */
  lemma NextRank(ranks: seq<string>, r: int)
    requires 0 <= r < |ranks|
    ensures Flatten(ranks[r..]) == ranks[r] + Flatten(ranks[r + 1..])
  {
    assert ranks[r..][1..] == ranks[r + 1..];
  }

  /** The loader's inner loop at character q of a rank followed by `tail`. */
  lemma NextChar(rank: string, q: int, tail: string)
    requires 0 <= q <= |rank|
    ensures q < |rank| ==> (rank[q..] + tail)[0] == rank[q] && (rank[q..] + tail)[1..] == rank[q + 1..] + tail
    ensures q == |rank| ==> rank[q..] + tail == tail
  {
    if q < |rank| {
      assert (rank[q..] + tail)[1..] == rank[q + 1..] + tail;
    }
  }

  /** A write at the cursor lands on a real rank, at the file the write count gives. */
  lemma CursorWrite(i: int, j: int, k: int)
    requires Cursor(i, j, k) && k < 64
    ensures 0 <= j && k % 8 == i
  {
  }

  /** One write of the loader at file i of rank j, the next square in writing order. */
  lemma LoadStep(g: Grid, orig: Grid, w: seq<Entry>, made: set<Piece>, i: int, j: int, x: Piece?, e: Entry)
    requires Loaded(g, orig, w, made) && 0 <= i < 8 && 0 <= j < 8 && |w| == (7 - j) * 8 + i
    requires Holds(x, e) && (x != null ==> x !in g && x.boardSpace == (i + 1, j))
    ensures Loaded(g[Cell((i, j)) := x], orig, w + [e], if x == null then made else made + {x})
  {
    var h := g[Cell((i, j)) := x];
    var w' := w + [e];
    var made' := if x == null then made else made + {x};
    forall sq | OnBoard(sq) && WriteIndex(sq) < |w'|
      ensures Holds(h[Cell(sq)], w'[WriteIndex(sq)])
      ensures h[Cell(sq)] != null ==> h[Cell(sq)] in made' && h[Cell(sq)].boardSpace == (sq.0 + 1, sq.1)
    {
      if sq != (i, j) {
        assert WriteIndex(sq) < |w| && h[Cell(sq)] == g[Cell(sq)] && w'[WriteIndex(sq)] == w[WriteIndex(sq)];
      }
    }
    forall sq | OnBoard(sq) && WriteIndex(sq) >= |w'| ensures h[Cell(sq)] == orig[Cell(sq)] {
      assert sq != (i, j) && WriteIndex(sq) >= |w|;
    }
    forall a, b | 0 <= a < b < |h| && h[a] != null ensures h[a] != h[b] {
      if a != Cell((i, j)) && b != Cell((i, j)) {
        assert h[a] == g[a] && h[b] == g[b];
      }
    }
  }

  lemma AppendAssoc(a: seq<Entry>, b: seq<Entry>, c: seq<Entry>)
    ensures a + (b + c) == (a + b) + c
  {
  }

  // ----- The board

  class Board {
    /** `pieces[file][rank]`, stored at cell Cell((file, rank)). */
    const pieces: array<Piece?>
    /** The pieces whose sprites are on the display (the SpriteKit scene itself is not modelled). */
    ghost var onDisplay: set<Piece>

    /** The board invariant: 64 cells, each piece at the square it records. */
    ghost predicate Valid()
      reads this, pieces, Occupants(pieces[..])
    {
      pieces.Length == 64 && Consistent(pieces[..])
    }

    /** A new board: an all-nil grid, then reset to the standard starting position. */
    constructor ()
      ensures Valid() && fresh(pieces)
      ensures forall sq | OnBoard(sq) :: Holds(pieces[Cell(sq)], StartingSquare(sq))
      ensures forall c | 0 <= c < 64 && pieces[c] != null :: fresh(pieces[c])
      ensures onDisplay == Occupants(pieces[..])
    {
      pieces := new Piece?[64](_ => null);
      onDisplay := {};
      new;
      assert pieces[..] == seq(64, _ => null);
      Reset();
      forall c | 0 <= c < 64 && pieces[c] != null ensures fresh(pieces[c]) {
        assert Cell(SquareOf(c)) == c;
      }
    }

    /** Takes every piece of the grid off the display; the grid itself is not touched. */
    method ClearBoard()
      requires pieces.Length == 64
      modifies this`onDisplay
      ensures onDisplay == old(onDisplay) - Occupants(pieces[..])
    {
      for c := 0 to 64
        invariant onDisplay == old(onDisplay) - Occupants(pieces[..c])
      {
        var piece := pieces[c];
        if piece != null {
          onDisplay := onDisplay - {piece};
        }
        assert pieces[..c + 1] == pieces[..c] + [pieces[c]];
      }
      assert pieces[..64] == pieces[..];
    }

    /** Clears the display and loads the standard starting position. */
    method Reset()
      requires pieces.Length == 64 && Injective(pieces[..])
      modifies this`onDisplay, pieces, Occupants(pieces[..])
      ensures Valid()
      ensures forall sq | OnBoard(sq) :: Holds(pieces[Cell(sq)], StartingSquare(sq))
      ensures forall sq | OnBoard(sq) && pieces[Cell(sq)] != null :: fresh(pieces[Cell(sq)])
      ensures forall p | p in old(Occupants(pieces[..])) :: p.kind == old(p.kind)
      ensures forall p | p in old(Occupants(pieces[..])) && p !in Occupants(pieces[..]) ::
        p.boardSpace == old(p.boardSpace)
      ensures onDisplay == old(onDisplay) - old(Occupants(pieces[..])) + Occupants(pieces[..])
    {
      ClearBoard();
      DefaultLayout();
      forall sq | OnBoard(sq) ensures WriteIndex(sq) < |Layout(DEFAULT_POSITION)| {
        WriteOrderInverse(sq);
      }
      UpdateFromFEN(DEFAULT_POSITION);
    }

    /** Loads the placement field of `fenString` into the grid, then brings the display in line
        with the grid. */
    method UpdateFromFEN(fenString: string)
      requires pieces.Length == 64 && Injective(pieces[..]) && Loadable(fenString)
      modifies this`onDisplay, pieces, Occupants(pieces[..])
      ensures Valid()
      ensures forall sq | OnBoard(sq) && WriteIndex(sq) < |Layout(fenString)| ::
        Holds(pieces[Cell(sq)], Layout(fenString)[WriteIndex(sq)])
        && (pieces[Cell(sq)] != null ==> fresh(pieces[Cell(sq)]))
      ensures forall sq | OnBoard(sq) && WriteIndex(sq) >= |Layout(fenString)| ::
        pieces[Cell(sq)] == old(pieces[Cell(sq)])
      ensures forall p | p in old(Occupants(pieces[..])) :: p.kind == old(p.kind)
      ensures forall p | p in old(Occupants(pieces[..])) && p !in Occupants(pieces[..]) ::
        p.boardSpace == old(p.boardSpace)
      ensures onDisplay == old(onDisplay) + Occupants(pieces[..])
    {
      ghost var before := pieces[..];
      LoadPositionFromFEN(fenString);
      forall p | p in Occupants(pieces[..]) ensures fresh(p) || p in Occupants(before) {
        var c :| 0 <= c < 64 && pieces[c] == p;
        assert Cell(SquareOf(c)) == c;
      }
      SyncDisplay();
    }

    /** Records in every piece of the grid the square it sits on, and puts it on the display. */
    method SyncDisplay()
      requires pieces.Length == 64 && Injective(pieces[..])
      modifies this`onDisplay, Occupants(pieces[..])
      ensures Valid()
      ensures forall p | p in Occupants(pieces[..]) :: p.kind == old(p.kind)
      ensures onDisplay == old(onDisplay) + Occupants(pieces[..])
    {
      ClearBoard();
      for i := 0 to 8
        invariant forall c | 0 <= c < i * 8 && pieces[c] != null :: pieces[c].boardSpace == SquareOf(c)
        invariant forall p | p in Occupants(pieces[..]) :: p.kind == old(p.kind)
        invariant onDisplay == old(onDisplay) - Occupants(pieces[..]) + Occupants(pieces[..i * 8])
      {
        for j := 0 to 8
          invariant forall c | 0 <= c < i * 8 + j && pieces[c] != null :: pieces[c].boardSpace == SquareOf(c)
          invariant forall p | p in Occupants(pieces[..]) :: p.kind == old(p.kind)
          invariant onDisplay == old(onDisplay) - Occupants(pieces[..]) + Occupants(pieces[..i * 8 + j])
        {
          var piece := pieces[Cell((i, j))];
          if piece != null {
            piece.SetSpace(i, j);
            onDisplay := onDisplay + {piece};
          }
          assert pieces[..i * 8 + j + 1] == pieces[..i * 8 + j] + [pieces[i * 8 + j]];
        }
      }
      assert pieces[..64] == pieces[..];
    }

    /** Fills the grid from the placement field of `fenString`, starting at file 0 of rank 7.
        Each letter writes a new piece, each digit n writes n nils, and the rank drops whenever the
        file counter reaches 8; other characters are skipped. Squares past the last write keep
        their occupants. A new piece records the square one file to the right of its cell, because
        the file counter is incremented before the piece is built. */
    method LoadPositionFromFEN(fenString: string)
      requires pieces.Length == 64 && Injective(pieces[..]) && Loadable(fenString)
      modifies pieces
      ensures Injective(pieces[..])
      ensures forall sq | OnBoard(sq) && WriteIndex(sq) < |Layout(fenString)| ::
        Holds(pieces[Cell(sq)], Layout(fenString)[WriteIndex(sq)])
      ensures forall sq | OnBoard(sq) && WriteIndex(sq) < |Layout(fenString)| && pieces[Cell(sq)] != null ::
        fresh(pieces[Cell(sq)]) && pieces[Cell(sq)].boardSpace == (sq.0 + 1, sq.1)
      ensures forall sq | OnBoard(sq) && WriteIndex(sq) >= |Layout(fenString)| ::
        pieces[Cell(sq)] == old(pieces[Cell(sq)])
    {
      var fenParameters := Split(fenString, ' ');
      var ranks := Split(fenParameters[0], '/');
      var i := 0;
      var j := 7;
      ghost var orig := pieces[..];
      ghost var layout := Layout(fenString);
      ghost var written: seq<Entry> := [];
      ghost var made: set<Piece> := {};
      assert ranks[0..] == ranks;
      for r := 0 to |ranks|
        invariant Cursor(i, j, |written|)
        invariant layout == written + Expand(Flatten(ranks[r..])) && FitsFrom(|written|, Flatten(ranks[r..]))
        invariant Loaded(pieces[..], orig, written, made) && fresh(made)
      {
        NextRank(ranks, r);
        i, j, written, made := ReadRank(ranks[r], i, j, orig, layout, written, made, Flatten(ranks[r + 1..]));
      }
    }

    /** The loader's inner loop over the characters of one rank, which `tail` follows in the field. */
    method ReadRank(rank: string, i: int, j: int, ghost orig: Grid, ghost layout: seq<Entry>,
                    ghost written: seq<Entry>, ghost made: set<Piece>, ghost tail: string)
      returns (i': int, j': int, ghost written': seq<Entry>, ghost made': set<Piece>)
      requires pieces.Length == 64 && Cursor(i, j, |written|)
      requires layout == written + Expand(rank + tail) && FitsFrom(|written|, rank + tail)
      requires Loaded(pieces[..], orig, written, made)
      modifies pieces
      ensures Cursor(i', j', |written'|)
      ensures layout == written' + Expand(tail) && FitsFrom(|written'|, tail)
      ensures Loaded(pieces[..], orig, written', made') && made <= made' && fresh(made' - made)
    {
      i', j', written', made' := i, j, written, made;
      ghost var todo := rank + tail;
      assert rank[0..] == rank;
      for q := 0 to |rank|
        invariant Cursor(i', j', |written'|)
        invariant todo == rank[q..] + tail
        invariant layout == written' + Expand(todo) && FitsFrom(|written'|, todo)
        invariant Loaded(pieces[..], orig, written', made') && made <= made' && fresh(made' - made)
      {
        var c := rank[q];
        NextChar(rank, q, tail);
        Consume(|written'|, todo);
        todo := todo[1..];
        ghost var before := written';
        i', j', written', made' := ReadChar(c, i', j', orig, written', made');
        AppendAssoc(before, Token(c), Expand(todo));
      }
      NextChar(rank, |rank|, tail);
    }

    /** The loader's work for one character at file i of rank j: a letter writes a new piece, a
        digit n writes n nils, anything else writes nothing; then a full rank moves the counters
        to file 0 of the rank below. */
    method ReadChar(c: char, i: int, j: int, ghost orig: Grid, ghost written: seq<Entry>, ghost made: set<Piece>)
      returns (i': int, j': int, ghost written': seq<Entry>, ghost made': set<Piece>)
      requires pieces.Length == 64 && Cursor(i, j, |written|) && TokenFits(|written|, c)
      requires Loaded(pieces[..], orig, written, made)
      modifies pieces
      ensures Cursor(i', j', |written'|) && written' == written + Token(c)
      ensures Loaded(pieces[..], orig, written', made')
      ensures made <= made' && fresh(made' - made)
    {
      i', j', written', made' := i, j, written, made;
      ghost var g := pieces[..];
      var e := Letter(c);
      if e.Some? {
        CursorWrite(i, j, |written|);
        var piece := new Piece(e.value.0, e.value.1, (i' + 1, j'));
        assert piece !in g;
        LoadStep(g, orig, written, made, i, j, piece, e);
        pieces[Cell((i', j'))] := piece;
        assert pieces[..] == g[Cell((i, j)) := piece];
        i' := i' + 1;
        written' := written' + [e];
        made' := made' + {piece};
        assert Token(c) == [e];
      } else {
        var d := Digit(c);
        if d.Some? {
          CursorWrite(i, j, |written|);
          i', written' := WriteBlanks(d.value, i, j, orig, written, made);
          assert Token(c) == seq(d.value, _ => None);
        } else {
          assert Token(c) == [];
        }
      }
      if i' == 8 {
        j' := j' - 1;
        i' := 0;
      }
    }

    /** A digit n: n nils from file i of rank j on. */
    method WriteBlanks(n: nat, i: int, j: int, ghost orig: Grid, ghost written: seq<Entry>, ghost made: set<Piece>)
      returns (i': int, ghost written': seq<Entry>)
      requires pieces.Length == 64 && 0 <= i && i + n <= 8 && 0 <= j < 8 && |written| == (7 - j) * 8 + i
      requires Loaded(pieces[..], orig, written, made)
      modifies pieces
      ensures i' == i + n && written' == written + seq(n, _ => None)
      ensures Loaded(pieces[..], orig, written', made)
    {
      i', written' := i, written;
      for t := 0 to n
        invariant i' == i + t && |written'| == (7 - j) * 8 + i'
        invariant written' == written + seq(t, _ => None)
        invariant Loaded(pieces[..], orig, written', made)
      {
        ghost var g := pieces[..];
        LoadStep(g, orig, written', made, i', j, null, None);
        pieces[Cell((i', j))] := null;
        assert pieces[..] == g[Cell((i', j)) := null];
        i' := i' + 1;
        written' := written' + [None];
      }
    }

    /** Moves the rook of a castle whose king has landed on `move.toIndex`. */
    method Castle(move: GameMove)
      requires Valid()
      modifies pieces, Occupants(pieces[..])
      ensures Valid()
      ensures pieces[..] == Castled(old(pieces[..]), Locate(move.toIndex).0, move.side)
      ensures forall p | p in old(Occupants(pieces[..])) :: p.kind == old(p.kind)
      ensures forall p | p in old(Occupants(pieces[..])) && p !in Occupants(pieces[..]) ::
        p.boardSpace == old(p.boardSpace)
    {
      ghost var g := pieces[..];
      ConsistentInjective(g);
      CastledOccupants(g, Locate(move.toIndex).0, move.side);
      var kingPos := Locate(move.toIndex);
      var rook: Piece?;
      if kingPos.0 == 6 {
        if move.side == White {
          rook := pieces[Cell((7, 0))];
          pieces[Cell((7, 0))] := null;
          pieces[Cell((5, 0))] := rook;
          if rook != null { rook.SetSpace(5, 0); }
        } else {
          rook := pieces[Cell((7, 7))];
          pieces[Cell((7, 7))] := null;
          pieces[Cell((5, 7))] := rook;
          if rook != null { rook.SetSpace(5, 7); }
        }
      } else if kingPos.0 == 2 {
        if move.side == White {
          rook := pieces[Cell((0, 0))];
          pieces[Cell((0, 0))] := null;
          pieces[Cell((3, 0))] := rook;
          if rook != null { rook.SetSpace(3, 0); }
        } else {
          rook := pieces[Cell((0, 7))];
          pieces[Cell((0, 7))] := null;
          pieces[Cell((3, 7))] := rook;
          if rook != null { rook.SetSpace(3, 7); }
        }
      }
    }

    /** The pawn taken en passant leaves the display; the grid is not touched. */
    method EnPassant(turn: Side, square: Option<int>)
      requires Valid() && EnPassantReady(pieces[..], turn, square)
      modifies this`onDisplay
      ensures onDisplay == old(onDisplay) - EnPassantVictim(pieces[..], turn, square)
    {
      if square.Some? && square.value > -1 {
        var piece: Piece;
        if turn == Black {
          var space := Locate(square.value - 16);
          piece := pieces[Cell(space)];
        } else {
          var space := Locate(square.value + 16);
          piece := pieces[Cell(space)];
        }
        onDisplay := onDisplay - {piece};
      }
    }

    /** The piece on `square`, if any, takes the promotion kind; its side and square stay. */
    method PromotePawn(side: Side, square: int, promotionPiece: Kind)
      requires Valid() && OnBoard(Locate(square))
      modifies pieces[Cell(Locate(square))]
      ensures Valid()
      ensures var p := pieces[Cell(Locate(square))];
        p != null ==> p.kind == promotionPiece && p.boardSpace == old(p.boardSpace)
    {
      var space := Locate(square);
      var piece := pieces[Cell(space)];
      if piece != null {
        piece.SetKind(promotionPiece);
      }
    }

    /** Steps 1 to 3 of a move: clears the piece's recorded square, takes a different piece on `toIndex`
        off the display, puts the piece on `toIndex` and records that square. */
    method Place(piece: Piece, toIndex: Square)
      requires Valid() && OnBoard(piece.boardSpace) && OnBoard(toIndex)
      modifies this`onDisplay, pieces, piece
      ensures Valid()
      ensures pieces[..] == Placed(old(pieces[..]), old(piece.boardSpace), toIndex, piece)
      ensures piece.boardSpace == toIndex && piece.kind == old(piece.kind)
      ensures onDisplay == old(onDisplay) - CapturedBy(old(pieces[..]), old(piece.boardSpace), toIndex, piece)
    {
      ghost var g := pieces[..];
      var from := piece.boardSpace;
      ConsistentInjective(g);
      pieces[Cell(from)] := null;
      var pieceAtSpace := pieces[Cell(toIndex)];
      if pieceAtSpace != null && pieceAtSpace != piece {
        onDisplay := onDisplay - {pieceAtSpace};
      }
      pieces[Cell(toIndex)] := piece;
      piece.SetSpace(toIndex.0, toIndex.1);
      assert pieces[..] == Placed(g, from, toIndex, piece);
    }

    /** Applies `move` to `piece`: clears its recorded square, takes a captured piece off the display,
        puts the piece on the destination, then handles the move's flag. */
    method MovePiece(piece: Piece, move: GameMove)
      requires Valid() && CanMove(pieces[..], piece.boardSpace, move, piece)
      modifies this, pieces, piece, Occupants(pieces[..])
      ensures Valid()
      ensures pieces[..] == AfterMove(old(pieces[..]), old(piece.boardSpace), move, piece)
      ensures piece.boardSpace == Locate(move.toIndex)
      ensures piece.kind == if IsPromotion(move.flag) then move.promotionPiece.value else old(piece.kind)
      ensures forall p | p in old(Occupants(pieces[..])) && p != piece :: p.kind == old(p.kind)
      ensures forall p | p in old(Occupants(pieces[..])) && p !in Occupants(pieces[..]) ::
        p.boardSpace == old(p.boardSpace)
      ensures onDisplay == old(onDisplay)
        - CapturedBy(old(pieces[..]), old(piece.boardSpace), Locate(move.toIndex), piece)
        - (if move.flag.EnPassant?
           then EnPassantVictim(Placed(old(pieces[..]), old(piece.boardSpace), Locate(move.toIndex), piece),
                                move.side, move.epSquare)
           else {})
    {
      Place(piece, Locate(move.toIndex));
      if move.flag.EnPassant? {
        EnPassant(move.side, move.epSquare);
      } else if move.flag == PawnPromotion || move.flag == PawnPromotionCapture {
        PromotePawn(move.side, move.toIndex, move.promotionPiece.value);
      } else if move.flag == KingsideCastle {
        CastleKeepsKing(pieces[..], piece, move);
        Castle(move);
      } else if move.flag == QueensideCastle {
        CastleKeepsKing(pieces[..], piece, move);
        Castle(move);
      }
    }

    /** Applies `move` to the piece on its from-square; an empty from-square changes nothing. */
    method MakeMove(move: GameMove)
      requires Valid() && OnBoard(Locate(move.fromIndex))
      requires var p := pieces[Cell(Locate(move.fromIndex))];
        p != null ==> CanMove(pieces[..], Locate(move.fromIndex), move, p)
      modifies this, pieces, Occupants(pieces[..])
      ensures Valid()
      ensures var p := old(pieces[Cell(Locate(move.fromIndex))]);
        p == null ==> pieces[..] == old(pieces[..]) && onDisplay == old(onDisplay)
      ensures var p := old(pieces[Cell(Locate(move.fromIndex))]);
        var from := Locate(move.fromIndex);
        var to := Locate(move.toIndex);
        p != null ==>
          && pieces[..] == AfterMove(old(pieces[..]), from, move, p)
          && p.boardSpace == to
          && p.kind == (if IsPromotion(move.flag) then move.promotionPiece.value else old(p.kind))
          && onDisplay == old(onDisplay) - CapturedBy(old(pieces[..]), from, to, p)
             - (if move.flag.EnPassant?
                then EnPassantVictim(Placed(old(pieces[..]), from, to, p), move.side, move.epSquare)
                else {})
      ensures forall p | p in old(Occupants(pieces[..])) && p != old(pieces[Cell(Locate(move.fromIndex))]) ::
        p.kind == old(p.kind)
      ensures forall p | p in old(Occupants(pieces[..])) && p !in Occupants(pieces[..]) ::
        p.boardSpace == old(p.boardSpace)
    {
      var fromIndex := Locate(move.fromIndex);
      var spritePiece := pieces[Cell(fromIndex)];
      if spritePiece != null {
        MovePiece(spritePiece, move);
      }
    }
  }
}
