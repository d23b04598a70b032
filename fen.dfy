/** The piece-placement field of Forsyth-Edwards Notation as the board's
    loader reads it: the text before the first space, cut at every '/', and
    each character turned into the cells it writes. */
module Fen {
  import opened ChessTypes
  import opened Squares

  /** What the loader writes into one cell: a new piece, or nil. */
  type Entry = Option<(Side, Kind)>

  const DEFAULT_POSITION: string := "rnbqkbnr/pppppppp/8/8/8/8/PPPPPPPP/RNBQKBNR w KQkq - 0 1"

  /** The piece a letter places: upper case White, lower case Black. */
  function Letter(c: char): Entry
  {
    match c
    case 'p' => Some((Black, Pawn))   case 'P' => Some((White, Pawn))
    case 'r' => Some((Black, Rook))   case 'R' => Some((White, Rook))
    case 'n' => Some((Black, Knight)) case 'N' => Some((White, Knight))
    case 'b' => Some((Black, Bishop)) case 'B' => Some((White, Bishop))
    case 'k' => Some((Black, King))   case 'K' => Some((White, King))
    case 'q' => Some((Black, Queen))  case 'Q' => Some((White, Queen))
    case _ => None
  }

  /** `Int(String(c))` of a single character: its value for an ASCII digit, nothing otherwise. */
  function Digit(c: char): (d: Option<nat>)
    ensures d.Some? ==> d.value <= 9
  {
    if '0' <= c <= '9' then Some(c as int - '0' as int) else None
  }

  /** The cells one character writes: one piece for a letter, n nils for the
      digit n, none for anything else. */
  function Token(c: char): seq<Entry>
  {
    if Letter(c).Some? then [Letter(c)]
    else if Digit(c).Some? then seq(Digit(c).value, _ => None)
    else []
  }

  /** The cells the loader writes for `s`, in the order it writes them. */
  function Expand(s: string): seq<Entry>
  {
    if s == [] then [] else Token(s[0]) + Expand(s[1..])
  }

  /** Whether character `c` can be consumed when `k` cells have been written
      so far: a write needs a rank left (k < 64), a digit must be at least 1
      (`1...0` traps) and must not run past file 7 of its rank. */
  predicate TokenFits(k: int, c: char)
  {
    if Letter(c).Some? then k < 64
    else if Digit(c).Some? then 1 <= Digit(c).value && k < 64 && k % 8 + Digit(c).value <= 8
    else true
  }

  /** Whether the loader consumes all of `s`, starting with `k` cells written, without trapping. */
  predicate FitsFrom(k: int, s: string)
    decreases s
  {
    s == [] || (TokenFits(k, s[0]) && FitsFrom(k + |Token(s[0])|, s[1..]))
  }

  /** The loader consuming one character of a non-empty placement string. */
  lemma Consume(k: int, s: string)
    requires s != []
    ensures Expand(s) == Token(s[0]) + Expand(s[1..])
    ensures FitsFrom(k, s) == (TokenFits(k, s[0]) && FitsFrom(k + |Token(s[0])|, s[1..]))
  {
  }

  /** `componentsSeparatedByString`: the pieces of `s` between separators; never empty. */
  function Split(s: string, sep: char): (parts: seq<string>)
    ensures |parts| >= 1
  {
    if s == [] then [[]]
    else if s[0] == sep then [[]] + Split(s[1..], sep)
    else
      var rest := Split(s[1..], sep);
      [[s[0]] + rest[0]] + rest[1..]
  }

  /** The parts glued back together with the separator: the inverse of Split. */
  function Join(parts: seq<string>, sep: char): string
    requires |parts| >= 1
  {
    if |parts| == 1 then parts[0] else parts[0] + [sep] + Join(parts[1..], sep)
  }

  /** The characters of all ranks in order, as the loader's nested loop visits them. */
  function Flatten(ranks: seq<string>): string
  {
    if ranks == [] then [] else ranks[0] + Flatten(ranks[1..])
  }

  /** The placement field: everything before the first space. */
  function Field(fen: string): string
  {
    Split(fen, ' ')[0]
  }

  /** The ranks the loader iterates over. */
  function Ranks(fen: string): seq<string>
  {
    Split(Field(fen), '/')
  }

  /** The cells loading `fen` writes, in writing order. */
  function Layout(fen: string): seq<Entry>
  {
    Expand(Flatten(Ranks(fen)))
  }

  /** Loading `fen` does not trap. */
  predicate Loadable(fen: string)
  {
    FitsFrom(0, Flatten(Ranks(fen)))
  }

  /** The square the loader writes with its k-th write: it starts at file 0
      of rank 7 and drops a rank whenever the file counter reaches 8. */
  function WriteSquare(k: int): Square
  {
    (k % 8, 7 - k / 8)
  }

  /** The position of a square in the writing order; the inverse of WriteSquare. */
  function WriteIndex(sq: Square): int
  {
    (7 - sq.1) * 8 + sq.0
  }

  lemma WriteOrder(k: int)
    requires 0 <= k < 64
    ensures OnBoard(WriteSquare(k)) && WriteIndex(WriteSquare(k)) == k
  {
  }

  lemma WriteOrderInverse(sq: Square)
    requires OnBoard(sq)
    ensures 0 <= WriteIndex(sq) < 64 && WriteSquare(WriteIndex(sq)) == sq
  {
  }

  // ----- Split and Join

  lemma {:induction false} SplitJoin(s: string, sep: char)
    ensures Join(Split(s, sep), sep) == s
  {
    if s != [] {
      var rest := Split(s[1..], sep);
      SplitJoin(s[1..], sep);
      if s[0] == sep {
        assert Split(s, sep)[1..] == rest;
      } else {
        var parts := Split(s, sep);
        assert parts[0] == [s[0]] + rest[0];
        if |rest| == 1 {
          assert Join(parts, sep) == [s[0]] + rest[0];
        } else {
          assert parts[1..] == rest[1..];
          assert Join(parts, sep) == [s[0]] + rest[0] + [sep] + Join(rest[1..], sep);
        }
      }
    }
  }

  lemma {:induction false} SplitNoSeparator(s: string, sep: char)
    ensures forall i :: 0 <= i < |Split(s, sep)| ==> sep !in Split(s, sep)[i]
  {
    if s != [] {
      SplitNoSeparator(s[1..], sep);
      var rest := Split(s[1..], sep);
      if s[0] != sep {
        var parts := Split(s, sep);
        forall i | 0 <= i < |parts| ensures sep !in parts[i] {
          if i == 0 {
            assert sep !in rest[0];
          } else {
            assert parts[i] == rest[i];
          }
        }
      }
    }
  }

  /** A string without the separator before it is the first part. */
  lemma {:induction false} SplitFirst(a: string, b: string, sep: char)
    requires sep !in a
    ensures Split(a + [sep] + b, sep)[0] == a
  {
    if a != [] {
      assert (a + [sep] + b)[1..] == a[1..] + [sep] + b;
      SplitFirst(a[1..], b, sep);
      assert [a[0]] + a[1..] == a;
    } else {
      assert a + [sep] + b == [sep] + b;
    }
  }

  // ----- Expand

  lemma {:induction false} ExpandAppend(a: string, b: string)
    ensures Expand(a + b) == Expand(a) + Expand(b)
  {
    if a == [] {
      assert a + b == b;
    } else {
      assert (a + b)[0] == a[0];
      assert (a + b)[1..] == a[1..] + b;
      ExpandAppend(a[1..], b);
    }
  }

  /** Cutting at '/' changes neither the cells written nor whether the
      loader traps: '/' writes no cell. */
  lemma {:induction false} FlattenSplitSlash(s: string, k: int)
    ensures Expand(Flatten(Split(s, '/'))) == Expand(s)
    ensures FitsFrom(k, Flatten(Split(s, '/'))) == FitsFrom(k, s)
  {
    if s != [] {
      var rest := Split(s[1..], '/');
      if s[0] == '/' {
        var parts := Split(s, '/');
        assert parts[0] == [] && parts[1..] == rest;
        assert Flatten(parts) == Flatten(rest);
        assert Token(s[0]) == [];
        FlattenSplitSlash(s[1..], k);
      } else {
        var parts := Split(s, '/');
        assert parts[1..] == rest[1..];
        assert Flatten(rest) == rest[0] + Flatten(rest[1..]);
        var f := Flatten(parts);
        assert f == [s[0]] + Flatten(rest);
        assert f[0] == s[0] && f[1..] == Flatten(rest);
        FlattenSplitSlash(s[1..], k + |Token(s[0])|);
      }
    }
  }

  /** Every character the loader consumes without trapping keeps the write
      count within the 64 cells of the board. */
  lemma {:induction false} FitsBound(k: int, s: string)
    requires 0 <= k <= 64 && FitsFrom(k, s)
    ensures k + |Expand(s)| <= 64
    decreases s
  {
    if s != [] {
      var n := |Token(s[0])|;
      assert k + n <= 64;
      FitsBound(k + n, s[1..]);
    }
  }

  lemma LoadableBound(fen: string)
    requires Loadable(fen)
    ensures |Layout(fen)| <= 64
  {
    FitsBound(0, Flatten(Ranks(fen)));
  }

  lemma {:induction false} FitsAppend(k: int, a: string, b: string)
    ensures FitsFrom(k, a + b) == (FitsFrom(k, a) && FitsFrom(k + |Expand(a)|, b))
    decreases a
  {
    if a == [] {
      assert a + b == b;
    } else {
      assert (a + b)[0] == a[0];
      assert (a + b)[1..] == a[1..] + b;
      FitsAppend(k + |Token(a[0])|, a[1..], b);
    }
  }

  // ----- The starting position

  /** The back-rank piece on a file: R N B Q K B N R. */
  function BackRank(file: int): Kind
  {
    if file == 0 || file == 7 then Rook
    else if file == 1 || file == 6 then Knight
    else if file == 2 || file == 5 then Bishop
    else if file == 3 then Queen
    else King
  }

  /** The textbook starting position, square by square. */
  function StartingSquare(sq: Square): Entry
  {
    if sq.1 == 0 then Some((White, BackRank(sq.0)))
    else if sq.1 == 1 then Some((White, Pawn))
    else if sq.1 == 6 then Some((Black, Pawn))
    else if sq.1 == 7 then Some((Black, BackRank(sq.0)))
    else None
  }

  /** The starting position of one rank, file 0 first. */
  function StartingRank(rank: int): seq<Entry>
  {
    seq(8, file => StartingSquare((file, rank)))
  }

  /** A string of piece letters writes one cell per letter and, with room left on the board,
      loads without trapping. */
  lemma {:induction false} ExpandLetters(s: string, k: int)
    requires forall i | 0 <= i < |s| :: Letter(s[i]).Some?
    requires 0 <= k && k + |s| <= 64
    ensures |Expand(s)| == |s| && forall i | 0 <= i < |s| :: Expand(s)[i] == Letter(s[i])
    ensures FitsFrom(k, s)
    decreases s
  {
    if s != [] {
      var t := s[1..];
      forall i | 0 <= i < |t| ensures Letter(t[i]).Some? {
        assert t[i] == s[i + 1];
      }
      ExpandLetters(t, k + 1);
      Consume(k, s);
      forall i | 0 <= i < |s| ensures Expand(s)[i] == Letter(s[i]) {
        if i > 0 {
          assert Expand(s)[i] == Expand(t)[i - 1];
        }
      }
    }
  }

  /** A '/' followed by eight piece letters writes one full rank. */
  lemma SlashRank(s: string, k: int)
    requires |s| == 9 && s[0] == '/' && forall i | 1 <= i < 9 :: Letter(s[i]).Some?
    requires 0 <= k <= 56
    ensures |Expand(s)| == 8 && forall f | 0 <= f < 8 :: Expand(s)[f] == Letter(s[f + 1])
    ensures FitsFrom(k, s)
  {
    var t := s[1..];
    forall i | 0 <= i < 8 ensures Letter(t[i]).Some? {
      assert t[i] == s[i + 1];
    }
    ExpandLetters(t, k);
    Consume(k, s);
  }

  lemma BlackBackRank()
    ensures Expand("rnbqkbnr") == StartingRank(7)
    ensures FitsFrom(0, "rnbqkbnr")
  {
    var s := "rnbqkbnr";
    forall i | 0 <= i < 8 ensures Letter(s[i]) == Some((Black, BackRank(i))) {
      assert i == 0 || i == 1 || i == 2 || i == 3 || i == 4 || i == 5 || i == 6 || i == 7;
    }
    ExpandLetters(s, 0);
  }

  lemma WhiteBackRank()
    ensures Expand("/RNBQKBNR") == StartingRank(0)
    ensures FitsFrom(56, "/RNBQKBNR")
  {
    var s := "/RNBQKBNR";
    forall f | 0 <= f < 8 ensures Letter(s[f + 1]) == Some((White, BackRank(f))) {
      assert f == 0 || f == 1 || f == 2 || f == 3 || f == 4 || f == 5 || f == 6 || f == 7;
    }
    SlashRank(s, 56);
  }

  lemma BlackPawns()
    ensures Expand("/pppppppp") == StartingRank(6)
    ensures FitsFrom(8, "/pppppppp")
  {
    var s := "/pppppppp";
    forall f | 0 <= f < 8 ensures Letter(s[f + 1]) == StartingRank(6)[f] {
      assert f == 0 || f == 1 || f == 2 || f == 3 || f == 4 || f == 5 || f == 6 || f == 7;
    }
    SlashRank(s, 8);
  }

  lemma WhitePawns()
    ensures Expand("/PPPPPPPP") == StartingRank(1)
    ensures FitsFrom(48, "/PPPPPPPP")
  {
    var s := "/PPPPPPPP";
    forall f | 0 <= f < 8 ensures Letter(s[f + 1]) == StartingRank(1)[f] {
      assert f == 0 || f == 1 || f == 2 || f == 3 || f == 4 || f == 5 || f == 6 || f == 7;
    }
    SlashRank(s, 48);
  }

  lemma EmptyRanks()
    ensures forall r | 2 <= r <= 5 :: Expand("/8") == StartingRank(r)
  {
  }

  lemma EmptyRanksFit()
    ensures FitsFrom(16, "/8") && FitsFrom(24, "/8") && FitsFrom(32, "/8") && FitsFrom(40, "/8")
  {
  }

  lemma DefaultField()
    ensures Field(DEFAULT_POSITION) == "rnbqkbnr/pppppppp/8/8/8/8/PPPPPPPP/RNBQKBNR"
  {
    var p := "rnbqkbnr/pppppppp/8/8/8/8/PPPPPPPP/RNBQKBNR";
    assert DEFAULT_POSITION == p + [' '] + "w KQkq - 0 1";
    assert ' ' !in p;
    SplitFirst(p, "w KQkq - 0 1", ' ');
  }

  /** Pieces that each write one full rank, read one after the other from
      cell k, write rank after rank and never trap. */
  lemma {:induction false} RankByRank(parts: seq<string>, k: int)
    requires forall i | 0 <= i < |parts| :: |Expand(parts[i])| == 8 && FitsFrom(k + 8 * i, parts[i])
    ensures FitsFrom(k, Flatten(parts))
    ensures |Expand(Flatten(parts))| == 8 * |parts|
    ensures forall i, f | 0 <= i < |parts| && 0 <= f < 8 ::
      Expand(Flatten(parts))[8 * i + f] == Expand(parts[i])[f]
  {
    if parts != [] {
      var rest := parts[1..];
      forall i | 0 <= i < |rest|
        ensures |Expand(rest[i])| == 8 && FitsFrom(k + 8 + 8 * i, rest[i])
      {
        assert rest[i] == parts[i + 1];
      }
      RankByRank(rest, k + 8);
      ExpandAppend(parts[0], Flatten(rest));
      FitsAppend(k, parts[0], Flatten(rest));
      var e := Expand(Flatten(parts));
      forall i, f | 0 <= i < |parts| && 0 <= f < 8 ensures e[8 * i + f] == Expand(parts[i])[f] {
        if i > 0 {
          assert e[8 * i + f] == Expand(Flatten(rest))[8 * (i - 1) + f];
          assert parts[i] == rest[i - 1];
        }
      }
    }
  }

  /** The ranks of DEFAULT_POSITION as the loader reads them, each with the '/' before it. */
  const DEFAULT_RANKS: seq<string> :=
    ["rnbqkbnr", "/pppppppp", "/8", "/8", "/8", "/8", "/PPPPPPPP", "/RNBQKBNR"]

  lemma DefaultRanksExpand(i: int)
    requires 0 <= i < 8
    ensures Expand(DEFAULT_RANKS[i]) == StartingRank(7 - i)
    ensures FitsFrom(8 * i, DEFAULT_RANKS[i])
  {
    if i == 0 {
      BlackBackRank();
    } else if i == 1 {
      BlackPawns();
    } else if i < 6 {
      EmptyRanks();
      EmptyRanksFit();
    } else if i == 6 {
      WhitePawns();
    } else {
      WhiteBackRank();
    }
  }

  lemma DefaultRanksConcat()
    ensures Flatten(DEFAULT_RANKS)
      == "rnbqkbnr" + "/pppppppp" + "/8" + "/8" + "/8" + "/8" + "/PPPPPPPP" + "/RNBQKBNR"
  {
  }

  lemma DefaultFieldConcat()
    ensures "rnbqkbnr/pppppppp/8/8/8/8/PPPPPPPP/RNBQKBNR"
      == "rnbqkbnr" + "/pppppppp" + "/8" + "/8" + "/8" + "/8" + "/PPPPPPPP" + "/RNBQKBNR"
  {
  }

  lemma DefaultRanksFlatten()
    ensures Flatten(DEFAULT_RANKS) == "rnbqkbnr/pppppppp/8/8/8/8/PPPPPPPP/RNBQKBNR"
  {
    DefaultRanksConcat();
    DefaultFieldConcat();
  }

  lemma DefaultFlattens()
    ensures Layout(DEFAULT_POSITION) == Expand(Flatten(DEFAULT_RANKS))
    ensures Loadable(DEFAULT_POSITION) == FitsFrom(0, Flatten(DEFAULT_RANKS))
  {
    DefaultField();
    DefaultRanksFlatten();
    var field := Field(DEFAULT_POSITION);
    FlattenSplitSlash(field, 0);
    assert Ranks(DEFAULT_POSITION) == Split(field, '/');
  }

  /** Eight pieces that each write one rank of the starting position, rank 7 first. */
  lemma {:induction false} StartingFromRanks(parts: seq<string>)
    requires |parts| == 8
    requires forall i | 0 <= i < 8 :: Expand(parts[i]) == StartingRank(7 - i) && FitsFrom(8 * i, parts[i])
    ensures FitsFrom(0, Flatten(parts))
    ensures |Expand(Flatten(parts))| == 64
    ensures forall sq | OnBoard(sq) :: Expand(Flatten(parts))[WriteIndex(sq)] == StartingSquare(sq)
  {
    RankByRank(parts, 0);
    forall sq | OnBoard(sq) ensures Expand(Flatten(parts))[WriteIndex(sq)] == StartingSquare(sq) {
      var i := 7 - sq.1;
      assert WriteIndex(sq) == 8 * i + sq.0;
      assert Expand(parts[i])[sq.0] == StartingRank(sq.1)[sq.0];
    }
  }

  /** DEFAULT_POSITION loads without trapping and fills the whole board with
      the starting position: White's pieces on ranks 0 and 1, Black's on
      ranks 7 and 6, ranks 2 to 5 empty. */
  lemma DefaultLayout()
    ensures Loadable(DEFAULT_POSITION)
    ensures |Layout(DEFAULT_POSITION)| == 64
    ensures forall sq | OnBoard(sq) :: Layout(DEFAULT_POSITION)[WriteIndex(sq)] == StartingSquare(sq)
  {
    var parts := DEFAULT_RANKS;
    forall i | 0 <= i < 8
      ensures Expand(parts[i]) == StartingRank(7 - i) && FitsFrom(8 * i, parts[i])
    {
      DefaultRanksExpand(i);
    }
    StartingFromRanks(parts);
    DefaultFlattens();
  }
}
