# Chess board grid and alpha-beta search

This project models two sequential cores of a SpriteKit chess program in Dafny:

- **The board's piece grid** (`ChessAI/Board.swift`): an 8×8 grid `pieces[file][rank]` of
  optional piece references. The model covers:
  - the decoding of the move generator's packed 0x88 square index (`locate`);
  - the loader for the piece-placement field of Forsyth–Edwards Notation (`loadPositionFromFEN`);
  - the two `makeMove` overloads, with their en-passant, promotion and castling follow-ups;
  - `syncDisplay`, `clearBoard`, `reset`, `updateFromFEN` and the initialiser.
- **The single-threaded search** (`ChessAI/SingleThreadedSearch.swift`): a depth-limited, fail-soft
  minimax with alpha-beta cutoffs. Black minimises and White maximises. Candidates that leave the
  mover in check are skipped. At MAX_SEARCH_DEPTH the move that tightens the bound is kept in the
  field `bestMove`.

Files:

- `chess_types.dfy` (module `ChessTypes`): sides, piece kinds, move flags and the move record.
- `squares.dfy` (module `Squares`):
  - `Locate`, with Swift's truncating `/` and sign-of-dividend `%` written out as `Quot` and `Rem`;
  - its inverse `Pack`;
  - the storage cell `Cell(sq) = file * 8 + rank` of the flat 64-cell grid.
- `fen.dfy` (module `Fen`): what the loader writes, as pure functions.
  - `Split` models `componentsSeparatedByString`.
  - `Expand` gives the cells a placement string writes.
  - `FitsFrom` holds when the loader consumes the string without trapping.
- `board.dfy` (module `ChessBoard`):
  - the classes `Piece` (the fields `side`, `kind` and `boardSpace`) and `Board`, over an
    `array<Piece?>` of 64 cells;
  - the grid functions that specify each move step (`Placed`, `Castled`, `AfterMove`);
  - a ghost set `onDisplay` of the pieces whose sprites are in the scene.
- `game_tree.dfy` (module `GameTree`): the `Game` collaborator as an abstract finite game tree.
  - A position carries its side to move, its static score, which sides are in check, and its
    pseudo-legal moves in generation order, each with the position it leads to.
  - `makeMove` and `undoMove` push onto and pop from a history of positions.
- `search.dfy` (module `Search`):
  - the search as a function (`AlphaBeta`, `Scan`, `Step`);
  - the reference `Minimax`;
  - the lemmas relating the two;
  - the class `SingleThreadedSearch`, whose `AlphaBetaSearch` method is proved equal to `AlphaBeta`.

Behaviour the model keeps as the code has it:

- **Recorded square of a loaded piece.** The loader writes `pieces[i++][j] = Piece(..., space: (i, j))`.
  The file counter is incremented before the piece is built, so a freshly loaded piece records the
  square one file to the right of its cell. `syncDisplay` repairs every recorded square afterwards.
- **En passant.** The en-passant branch only takes the captured pawn's sprite off the display
  (`ChessAI/Board.swift:117`). After an en-passant move the grid still holds the captured pawn.
- **Castling with no rook.** If the rook is missing, castling still clears the rook's square and
  writes nil at its destination.

## Model

| member | source | states |
|---|---|---|
| Squares.Rem | ChessAI/Board.swift:140-144 | Swift's `%`: for a non-negative dividend the usual remainder; for a negative one, the remainder of its magnitude, negated |
| Squares.Quot | ChessAI/Board.swift:140-144 | Swift's `/`: the quotient truncated toward zero, so the remainder left over has the dividend's sign and is smaller than the divisor |
| Squares.Locate | ChessAI/Board.swift:140-144 | for a non-negative index the square is (index mod 16, 7 − index div 16) |
| Squares.LocateRowFile | ChessAI/Board.swift:140-144 | index row·16 + file with row and file in 0..7 decodes to (file, 7 − row), which is on the board |
| Squares.LocateOnBoardIff | ChessAI/Board.swift:140-144 | an index decodes to a board square exactly when it is a packed 0x88 index (0..127 with file 0..7), both directions |
| Squares.LocatePack | ChessAI/Board.swift:140-144 | every board square is decoded from its packed index |
| Squares.PackLocate | ChessAI/Board.swift:140-144 | every packed index is the packing of the square it decodes to |
| Squares.LocateInjective | ChessAI/Board.swift:140-144 | two packed indices that decode to the same square are equal |
| Squares.SquareOf | ChessAI/Board.swift:16 | every grid cell is the storage cell of exactly one board square |
| Squares.CellInjective | ChessAI/Board.swift:16 | distinct squares are stored in distinct cells |
| Fen.Letter | ChessAI/Board.swift:248-272 | defines the piece each of the twelve letters places, upper case White and lower case Black, and nothing for any other character; ExpandLetters states what it writes |
| Fen.Token | ChessAI/Board.swift:248-284 | defines the cells one character writes: one piece for a letter, n nils for the digit n (`1...n`), none for anything else |
| Fen.Expand | ChessAI/Board.swift:247-284 | defines the cells a string writes, in writing order; ExpandAppend, ExpandLetters and FlattenSplitSlash state its properties |
| Fen.TokenFits | ChessAI/Board.swift:248-281 | defines when one character can be consumed without trapping: a write needs a cell left, and a digit must be at least 1 and must not run past file 7 |
| Fen.FitsFrom | ChessAI/Board.swift:247-284 | defines when a whole string is consumed without trapping; FitsAppend and FitsBound state its properties |
| Fen.Field | ChessAI/Board.swift:242 | defines the placement field as the first space-separated part; SplitFirst states that it is the text before the first space |
| Fen.Ranks | ChessAI/Board.swift:243 | defines the ranks as the '/'-separated parts of the placement field |
| Fen.Layout | ChessAI/Board.swift:240-287 | defines the cells loading a FEN writes, in writing order; LoadPositionFromFEN is proved equal to it and DefaultLayout states its value for DEFAULT_POSITION |
| Fen.Loadable | ChessAI/Board.swift:240-287 | defines when loading a FEN does not trap; LoadableBound states that it then writes at most 64 cells |
| Fen.WriteSquare | ChessAI/Board.swift:244-284 | defines the k-th write's square: start at file 0 of rank 7 and drop a rank when the file counter reaches 8; WriteOrder and WriteOrderInverse state that it is a bijection |
| Fen.Digit | ChessAI/Board.swift:274-275 | `Int(String(c))` of one character is at most 9 when it exists |
| Fen.Split | ChessAI/Board.swift:242-243 | `componentsSeparatedByString` always yields at least one part |
| Fen.SplitJoin | ChessAI/Board.swift:242-243 | joining the parts with the separator gives back the original string |
| Fen.SplitNoSeparator | ChessAI/Board.swift:242-243 | no part contains the separator |
| Fen.SplitFirst | ChessAI/Board.swift:242 | text before the first separator is the first part, so the placement field is the text before the first space |
| Fen.ExpandLetters | ChessAI/Board.swift:248-272 | a run of piece letters writes one cell per letter, each the letter's side and kind, and loads without trapping while the board has room |
| Fen.ExpandAppend | ChessAI/Board.swift:246-285 | the cells written for a concatenation are those of each piece in order |
| Fen.FlattenSplitSlash | ChessAI/Board.swift:243-247 | iterating over the '/'-separated ranks writes the same cells, and traps in the same cases, as reading the field with '/' skipped |
| Fen.FitsAppend | ChessAI/Board.swift:246-285 | a concatenation loads without trapping iff its first piece does and the second does from where the first stopped |
| Fen.FitsBound | ChessAI/Board.swift:246-285 | a string that loads without trapping writes no more cells than the board has left |
| Fen.LoadableBound | ChessAI/Board.swift:240-287 | a loadable FEN writes at most 64 cells |
| Fen.WriteOrder | ChessAI/Board.swift:244-284 | for k in 0..63 the k-th write goes to a board square whose write index is k again |
| Fen.WriteOrderInverse | ChessAI/Board.swift:244-284 | every board square is written by exactly one write index, starting at file 0 of rank 7 and dropping a rank every 8 writes |
| Fen.RankByRank | ChessAI/Board.swift:246-285 | ranks that each write 8 cells without trapping load one after the other, rank i filling writes 8i..8i+7 |
| Fen.DefaultLayout | ChessAI/Board.swift:13 | DEFAULT_POSITION loads without trapping, writes all 64 cells, and puts R N B Q K B N R and pawns on ranks 0 and 1 for White, the mirror on ranks 7 and 6 for Black, and nil on ranks 2 to 5 |
| ChessBoard.Piece.SetSpace | ChessAI/Board.swift:197 | the recorded square becomes (x, y) and the kind is kept |
| ChessBoard.Piece.SetKind | ChessAI/Board.swift:137 | the kind becomes k and the recorded square is kept |
| ChessBoard.ConsistentInjective | ChessAI/Board.swift:16 | in a grid where every piece records the square it sits on, no piece sits in two cells |
| ChessBoard.Placed | ChessAI/Board.swift:175-197 | defines the grid after steps 1 to 3: the mover's recorded square is cleared, then the mover is put on the destination; PlacedSquares and PlacedOccupants state its properties |
| ChessBoard.CapturedBy | ChessAI/Board.swift:187-191 | defines the captured piece as a different piece on the destination once the from-square is cleared |
| ChessBoard.CastleRank | ChessAI/Board.swift:81-102 | defines rank 0 for White and rank 7 for Black |
| ChessBoard.RookMove | ChessAI/Board.swift:78-104 | defines the rook's from and to squares: file 7 to 5 for a king on file 6, file 0 to 3 for a king on file 2, none otherwise |
| ChessBoard.Castled | ChessAI/Board.swift:77-105 | defines the grid after the rook step; CastledSquares and CastledOccupants state its properties |
| ChessBoard.EnPassantTarget | ChessAI/Board.swift:107-116 | defines the captured pawn's index: the square minus 16 for Black, plus 16 for White, none unless the square is present and above −1 |
| ChessBoard.EnPassantReady | ChessAI/Board.swift:111-115 | defines when the en-passant branch does not trap: the captured square is on the board and occupied |
| ChessBoard.EnPassantVictim | ChessAI/Board.swift:107-119 | defines the piece the en-passant branch takes off the display |
| ChessBoard.CanMove | ChessAI/Board.swift:168-209 | defines when a move runs without trapping: on-board from-square and to-square, a promotion kind for a promotion, and a ready en-passant capture |
| ChessBoard.AfterMove | ChessAI/Board.swift:173-210 | defines the grid after a whole move: steps 1 to 3, then the rook step for a castle; MovePiece and MakeMove are proved equal to it |
| ChessBoard.PlacedSquares | ChessAI/Board.swift:175-197 | after the move steps, the destination holds the piece, the old square is nil unless it is the destination, and every other cell is unchanged |
| ChessBoard.PlacedOccupants | ChessAI/Board.swift:175-197 | afterwards no piece sits in two cells, and the grid holds the mover plus exactly the old occupants other than the piece on the from-square and a different piece that was on the destination |
| ChessBoard.CastledSquares | ChessAI/Board.swift:77-105 | king on file 6: cell [7][r] moves to [5][r]; king on file 2: [0][r] moves to [3][r] (r = 0 for White, 7 for Black); any other file leaves the grid untouched |
| ChessBoard.CastledOccupants | ChessAI/Board.swift:77-105 | castling keeps every piece in one cell and loses only a piece that stood on the rook's destination |
| ChessBoard.CastleKeepsKing | ChessAI/Board.swift:205-208 | the king that has just landed is still on the grid after its rook moves |
| ChessBoard.LoadStep | ChessAI/Board.swift:249-278 | one write of the loader keeps the loader's invariant: written squares hold their entries, unwritten squares keep their old content, no piece sits twice |
| ChessBoard.Board.constructor | ChessAI/Board.swift:20-43 | a new board, all nil, then reset: every square holds the starting-position piece, every piece on the grid is a new object, and every piece is on display |
| ChessBoard.Board.ClearBoard | ChessAI/Board.swift:216-222 | every piece of the grid leaves the display; the grid is untouched |
| ChessBoard.Board.Reset | ChessAI/Board.swift:224-227 | after reset every square holds a new piece of the starting position, the invariant holds, the display holds exactly the new pieces besides those it held that were not on the grid when the reset began, the old pieces keep their kinds, and an old piece that has left the grid keeps its recorded square |
| ChessBoard.Board.UpdateFromFEN | ChessAI/Board.swift:289-292 | written squares hold new pieces of the layout, unwritten squares keep their occupants, every piece records its own square, and all grid pieces are on display; every piece that was on the grid before keeps its kind, and one that has left the grid keeps its recorded square |
| ChessBoard.Board.SyncDisplay | ChessAI/Board.swift:294-305 | every non-nil pieces[i][j] records the square (i, j), kinds are kept, and every grid piece is on display |
| ChessBoard.Board.LoadPositionFromFEN | ChessAI/Board.swift:240-287 | each written square holds a new piece of the letter's side and kind, or nil for a digit, recording the square one file to its right; squares past the last write keep their occupants |
| ChessBoard.Board.ReadRank | ChessAI/Board.swift:247-285 | the loop over one rank's characters consumes the rank, extending the writes by the cells it expands to |
| ChessBoard.Board.ReadChar | ChessAI/Board.swift:248-284 | one character writes its token's cells and keeps the file and rank counters right, wrapping to the next rank at file 8 |
| ChessBoard.Board.WriteBlanks | ChessAI/Board.swift:275-279 | a digit n writes n nils on the current rank |
| ChessBoard.Board.Castle | ChessAI/Board.swift:77-105 | the grid becomes Castled of the old grid, the invariant holds, kinds are kept, and a piece that leaves the grid keeps its recorded square |
| ChessBoard.Board.EnPassant | ChessAI/Board.swift:107-119 | with no square or a negative square, nothing changes; otherwise the pawn at square − 16 (Black) or + 16 (White) leaves the display; the grid is untouched |
| ChessBoard.Board.PromotePawn | ChessAI/Board.swift:134-138 | the piece on the square, if any, takes the promotion kind and keeps its side and square |
| ChessBoard.Board.Place | ChessAI/Board.swift:175-197 | the grid becomes Placed of the old grid, the piece records its destination, and a different piece that stood there leaves the display |
| ChessBoard.Board.MovePiece | ChessAI/Board.swift:173-210 | the grid becomes AfterMove of the old one; the piece records its destination and has the promotion kind if promoted; other kinds are kept; the captured piece and the en-passant victim leave the display |
| ChessBoard.Board.MakeMove | ChessAI/Board.swift:166-171 | with an empty from-square nothing changes; otherwise the piece on it is moved as with MovePiece |
| Search.Seed | ChessAI/SingleThreadedSearch.swift:33-34 | defines the starting value: INFINITY for Black, −INFINITY for White; NoCandidates states that it is returned when no candidate survives |
| Search.Cut | ChessAI/SingleThreadedSearch.swift:57-75 | defines the early exit: for Black the value is at or below alpha, for White at or above beta |
| Search.AlphaBeta | ChessAI/SingleThreadedSearch.swift:29-82 | defines the search result and recorded move: the static score at depth 0, otherwise the candidate loop from the seed; AlphaBetaSearch is proved equal to it and AlphaBetaFailSoft relates it to Minimax |
| Search.Scan | ChessAI/SingleThreadedSearch.swift:38-80 | defines the candidate loop: skip a candidate that leaves the mover in check, apply Step to the child's result, stop at a cut, and return the value when the candidates run out |
| Search.Step | ChessAI/SingleThreadedSearch.swift:46-71 | at a minimising node alpha is kept, beta never rises and the value becomes the minimum so far; at a maximising node the mirror; the mover's bound becomes the value exactly when the value strictly passes it and is kept otherwise; the recorded move changes only when the bound strictly tightens at MAX_SEARCH_DEPTH, and then it always becomes the candidate's move |
| Search.AlphaBetaFailSoft | ChessAI/SingleThreadedSearch.swift:29-82 | for −INFINITY ≤ alpha < beta ≤ INFINITY, a result inside the window is the minimax value, one at or below alpha is an upper bound on it, one at or above beta a lower bound |
| Search.ScanMinFailSoft | ChessAI/SingleThreadedSearch.swift:46-60 | the minimising loop is fail-soft against the minimum over its candidates, while beta is the smaller of the node's beta and the value so far |
| Search.ScanMaxFailSoft | ChessAI/SingleThreadedSearch.swift:61-76 | the maximising loop is fail-soft against the maximum over its candidates, while alpha is the larger of the node's alpha and the value so far |
| Search.MinimaxBounded | ChessAI/SingleThreadedSearch.swift:33-34 | with static scores inside ±INFINITY the minimax value is inside too |
| Search.AlphaBetaBounded | ChessAI/SingleThreadedSearch.swift:29-82 | with static scores inside ±INFINITY every search result is inside too, for any window |
| Search.RootValue | ChessAI/SingleThreadedSearch.swift:29-82 | searched with the full window (−INFINITY, INFINITY), the result equals plain minimax |
| Search.BestOnlyAtMaxDepth | ChessAI/SingleThreadedSearch.swift:51-71 | below MAX_SEARCH_DEPTH the search never changes bestMove |
| Search.ScanKeepsBest | ChessAI/SingleThreadedSearch.swift:51-71 | the candidate loop below MAX_SEARCH_DEPTH leaves the recorded move as it was |
| Search.RootScanMin | ChessAI/SingleThreadedSearch.swift:46-60 | in the minimising root loop the recorded move is always a non-skipped candidate whose minimax value is the current value |
| Search.RootScanMax | ChessAI/SingleThreadedSearch.swift:61-76 | the maximising counterpart of RootScanMin |
| Search.RootBestMove | ChessAI/SingleThreadedSearch.swift:29-82 | at MAX_SEARCH_DEPTH with the full window, the result is minimax; if it differs from the seed (INFINITY for Black, −INFINITY for White) the recorded bestMove is a root candidate that does not leave the mover in check and leads to exactly that minimax value, otherwise bestMove is unchanged |
| Search.ScanLegal | ChessAI/SingleThreadedSearch.swift:39-43 | the loop over all candidates gives the same result as the loop over the candidates that do not leave the mover in check |
| Search.LegalMembers | ChessAI/SingleThreadedSearch.swift:39-43 | the surviving candidates are exactly those that do not leave the mover in check |
| Search.SkippedCandidates | ChessAI/SingleThreadedSearch.swift:39-43 | removing the candidates that leave the mover in check from a position does not change its search |
| Search.NoCandidates | ChessAI/SingleThreadedSearch.swift:33-34 | a position with no surviving candidate returns INFINITY for Black to move and −INFINITY for White, and records nothing |
| Search.ScanMonotone | ChessAI/SingleThreadedSearch.swift:46-76 | a minimising loop never returns more than its starting value, a maximising loop never less |
| Search.SingleThreadedSearch.constructor | ChessAI/SingleThreadedSearch.swift:18-23 | stores the game and side; bestMove starts as nil |
| Search.SingleThreadedSearch.GetBestMove | ChessAI/SingleThreadedSearch.swift:25-27 | returns the recorded move; bestMove must be non-nil |
| Search.SingleThreadedSearch.UpdateCurrentNode | ChessAI/SingleThreadedSearch.swift:84-88 | bestMove becomes nil |
| Search.SingleThreadedSearch.Improve | ChessAI/SingleThreadedSearch.swift:46-71 | the value, bound and recorded-move updates after one candidate are those of Step |
| Search.SingleThreadedSearch.SearchMove | ChessAI/SingleThreadedSearch.swift:39-76 | a candidate that leaves the mover in check is undone with nothing changed; otherwise the value, bounds and bestMove become Step of the child's search, and the cut is reported; the game's history is restored |
| Search.SingleThreadedSearch.AlphaBetaSearch | ChessAI/SingleThreadedSearch.swift:29-82 | the result and the final bestMove are those of AlphaBeta on the current position (the static evaluation at depth 0), and every move made is undone, so the history on exit equals the history on entry |

## Left out

- The SpriteKit display is not modelled: sprites, `addChild`, the `Space` grid and its colours, and
  the `lastMoveFrom`/`lastMoveTo` highlighting. `removeFromParent` is kept only as the ghost set
  `onDisplay`.
- `inCheckmate`, `inCheck` and `inStalemate` are left out: they only recolour squares.
- `screenShake` is left out: random numbers and animation.
- `closestSpace`, `pointToSpace` and `positionOnBoard` are left out: CGFloat screen geometry.
- `get(position:)` is left out: it looks up a display square.
- `snapback` is left out: a display animation back to the recorded square.
- `pgnMove` and `start` are left out: their bodies are empty.
- `Piece.swift`, `Game.swift`, `GameMove.swift` and `Evaluate.swift` are not part of this model.
  - `Piece` is a record with the fields and setters the board uses.
  - `Game` is an abstract game tree with a history stack.
  - `Evaluate` returns a position's stored score.
- `INFINITY` and `MAX_SEARCH_DEPTH` are defined outside these files; they are the parameters
  `Params.infinity` and `Params.maxDepth`.
- The loader traps on a digit 0 (`1...0`), on a digit that runs past file 7, and on a write after
  rank 0. The model does not execute a trap: `Loadable` is a precondition of the loader.
- ChessBoard.Board.SyncDisplay: assumes no piece sits in two cells. In SpriteKit, adding the same
  sprite twice traps.
- ChessBoard.Board.LoadPositionFromFEN: a loaded piece records the square one file to its right, as
  the code computes it. `UpdateFromFEN` and `Reset` state the recorded squares after `syncDisplay`
  has repaired them.
- Search.RootBestMove: proves that the recorded move leads to a position with the root's minimax
  value. It does not prove that it is the last root candidate that strictly moved the bound.
- Search.AlphaBetaFailSoft: requires −INFINITY ≤ alpha < beta ≤ INFINITY, because the proof's loop
  invariant needs it. The root call of `alphaBetaSearch` is not part of these files. Each recursive
  call (`ChessAI/SingleThreadedSearch.swift:44`) searches inside its caller's current window, so a
  root call inside that window keeps every call inside it. Windows outside ±INFINITY are not proved.
- Integer width is not modelled: Swift's `Int` is 64-bit, and the model's integers are unbounded.
  The search only compares scores and negates `INFINITY`, and `Evaluate` and `INFINITY` are not part
  of this model, so overflow of a score is not captured.
- Moves whose from-square or to-square is off the board trap in `locate`'s callers
  (`ChessAI/Board.swift:168-169`, `175`, `188`). The model does not execute a trap:
  `ChessBoard.Board.MakeMove` requires an on-board from-square, and `CanMove` an on-board to-square.
- A promotion move without a promotion kind traps at its force unwrap (`ChessAI/Board.swift:204`).
  `CanMove` requires the kind to be present instead.
- An en-passant move whose captured square is empty traps at its force unwrap
  (`ChessAI/Board.swift:112`, `115`). `CanMove` requires that square to be on the board and occupied
  (`EnPassantReady`).
- Search.SingleThreadedSearch.AlphaBetaSearch: requires depth ≥ 0. With a negative depth the Swift
  code never reaches its `depth == 0` base case (`ChessAI/SingleThreadedSearch.swift:30`); it recurses
  until the stack overflows or the tree runs out of moves, and the model does not capture that.
- The loader reads one Unicode scalar at a time. Swift's `rank.characters` yields grapheme
  clusters, so a letter or digit followed by a combining mark (for example `p` with U+0301) is one
  `Character` that matches no case and is skipped. For such text the model writes the letter's piece
  or the digit's blanks instead. Grapheme segmentation is not modelled.
