/** The single-threaded alpha-beta search: a depth-limited, fail-soft minimax
    in which Black minimises and White maximises, candidates that leave the
    mover in check are skipped, and the best root move is kept in a field. */
module Search {
  import opened ChessTypes
  import opened GameTree

  /** INFINITY and MAX_SEARCH_DEPTH, constants defined outside the search. */
  datatype Params = Params(infinity: int, maxDepth: int)

  /** A search result and the best move recorded when the search returns. */
  datatype Outcome = Outcome(value: int, best: Option<GameMove>)

  /** After the move of `e`, the side that just moved is in check. */
  predicate LeavesMoverInCheck(e: Edge)
  {
    Opponent(e.child.turn) in e.child.checked
  }

  /** The value a node starts from, and returns when no candidate survives. */
  function Seed(turn: Side, p: Params): int
  {
    if turn == Black then p.infinity else -p.infinity
  }

  function Min(a: int, b: int): int
  {
    if a <= b then a else b
  }

  function Max(a: int, b: int): int
  {
    if a >= b then a else b
  }

  // ----- What the search computes

  /** The loop variables of a node's candidate loop: the bounds, the value so far and the
      recorded best move. */
  datatype State = State(alpha: int, beta: int, value: int, best: Option<GameMove>)

  /** One candidate's effect on the loop variables, once its own search has returned `r`: the
      value takes the better of the two, the bound on the mover's side follows it when it
      improves, and at MAX_SEARCH_DEPTH an improving candidate's move is recorded. */
  function Step(turn: Side, depth: nat, s: State, move: GameMove, r: Outcome, p: Params): (t: State)
    ensures turn == Black ==> t.alpha == s.alpha && t.beta <= s.beta && t.value == Min(s.value, r.value)
    ensures turn == White ==> t.beta == s.beta && t.alpha >= s.alpha && t.value == Max(s.value, r.value)
    ensures t.best == r.best || (depth == p.maxDepth && t.best == Some(move))
    // The mover's bound follows the value exactly when the value strictly passes it, and only then
    // (and always, at MAX_SEARCH_DEPTH) is the move recorded.
    ensures turn == Black ==> (t.value < s.beta ==> t.beta == t.value) && (t.value >= s.beta ==> t.beta == s.beta)
    ensures turn == White ==> (t.value > s.alpha ==> t.alpha == t.value) && (t.value <= s.alpha ==> t.alpha == s.alpha)
    ensures turn == Black && t.best != r.best ==> depth == p.maxDepth && t.beta < s.beta
    ensures turn == White && t.best != r.best ==> depth == p.maxDepth && t.alpha > s.alpha
    ensures turn == Black && depth == p.maxDepth && t.value < s.beta ==> t.best == Some(move)
    ensures turn == White && depth == p.maxDepth && t.value > s.alpha ==> t.best == Some(move)
  {
    if turn == Black then
      var v := if r.value < s.value then r.value else s.value;
      if v < s.beta then State(s.alpha, v, v, if depth == p.maxDepth then Some(move) else r.best)
      else State(s.alpha, s.beta, v, r.best)
    else
      var v := if r.value > s.value then r.value else s.value;
      if v > s.alpha then State(v, s.beta, v, if depth == p.maxDepth then Some(move) else r.best)
      else State(s.alpha, s.beta, v, r.best)
  }

  /** The loop stops early: the value has reached the bound of the side not to move. */
  predicate Cut(turn: Side, s: State)
  {
    if turn == Black then s.value <= s.alpha else s.value >= s.beta
  }

  /** The search of `n` to `depth` plies in the window (alpha, beta), with `best` in the field. */
  function AlphaBeta(n: Node, depth: nat, alpha: int, beta: int, best: Option<GameMove>, p: Params): Outcome
    decreases depth, 1
  {
    if depth == 0 then Outcome(Evaluate(n), best)
    else Scan(n.turn, n.edges, depth, State(alpha, beta, Seed(n.turn, p), best), p)
  }

  /** The candidate loop of a node whose side to move is `turn`, over the candidates `es` still to
      come, from the loop variables `s`. */
  function Scan(turn: Side, es: seq<Edge>, depth: nat, s: State, p: Params): Outcome
    requires depth >= 1
    decreases depth, 0, |es|
  {
    if es == [] then Outcome(s.value, s.best)
    else if LeavesMoverInCheck(es[0]) then Scan(turn, es[1..], depth, s, p)
    else
      var t := Step(turn, depth, s, es[0].move, AlphaBeta(es[0].child, depth - 1, s.alpha, s.beta, s.best, p), p);
      if Cut(turn, t) then Outcome(t.value, t.best) else Scan(turn, es[1..], depth, t, p)
  }

  // ----- The reference: plain depth-limited minimax

  /** Minimax over the same tree, with the same check filter and the same value for a node
      without candidates, and no pruning. */
  function Minimax(n: Node, depth: nat, p: Params): int
    decreases depth, 1
  {
    if depth == 0 then Evaluate(n)
    else MinimaxScan(n.turn, n.edges, depth, Seed(n.turn, p), p)
  }

  function MinimaxScan(turn: Side, es: seq<Edge>, depth: nat, acc: int, p: Params): int
    requires depth >= 1
    decreases depth, 0, |es|
  {
    if es == [] then acc
    else if LeavesMoverInCheck(es[0]) then MinimaxScan(turn, es[1..], depth, acc, p)
    else
      var m := Minimax(es[0].child, depth - 1, p);
      MinimaxScan(turn, es[1..], depth, if turn == Black then Min(acc, m) else Max(acc, m), p)
  }

  /** The candidates of `es` that do not leave the mover in check, in order. */
  function Legal(es: seq<Edge>): seq<Edge>
  {
    if es == [] then []
    else if LeavesMoverInCheck(es[0]) then Legal(es[1..])
    else [es[0]] + Legal(es[1..])
  }

  /** Fail-soft: inside the window the result is exact, at or below alpha it is an upper bound,
      at or above beta a lower bound on the minimax value m. */
  predicate FailSoft(r: int, m: int, alpha: int, beta: int)
  {
    && (alpha < r < beta ==> r == m)
    && (r <= alpha ==> m <= r)
    && (r >= beta ==> m >= r)
  }

  /** Every position the search evaluates has a score within [-INFINITY, INFINITY]. */
  ghost predicate Bounded(n: Node, depth: nat, p: Params)
    decreases depth
  {
    if depth == 0 then -p.infinity <= Evaluate(n) <= p.infinity
    else forall e | e in n.edges :: Bounded(e.child, depth - 1, p)
  }

  // ----- Fail-soft correctness against minimax

  /** The minimax value of a minimising candidate loop never exceeds what it starts from. */
  lemma {:induction false} MinScanBelow(es: seq<Edge>, depth: nat, acc: int, p: Params)
    requires depth >= 1
    ensures MinimaxScan(Black, es, depth, acc, p) <= acc
    decreases |es|
  {
    if es != [] {
      if LeavesMoverInCheck(es[0]) {
        MinScanBelow(es[1..], depth, acc, p);
      } else {
        MinScanBelow(es[1..], depth, Min(acc, Minimax(es[0].child, depth - 1, p)), p);
      }
    }
  }

  /** The minimax value of a maximising candidate loop is never below what it starts from. */
  lemma {:induction false} MaxScanAbove(es: seq<Edge>, depth: nat, acc: int, p: Params)
    requires depth >= 1
    ensures MinimaxScan(White, es, depth, acc, p) >= acc
    decreases |es|
  {
    if es != [] {
      if LeavesMoverInCheck(es[0]) {
        MaxScanAbove(es[1..], depth, acc, p);
      } else {
        MaxScanAbove(es[1..], depth, Max(acc, Minimax(es[0].child, depth - 1, p)), p);
      }
    }
  }

  /** Fail-soft correctness: for a window inside [-INFINITY, INFINITY], the search result is the
      minimax value when it lies strictly inside the window, an upper bound on it when it is at or
      below alpha, and a lower bound on it when it is at or above beta. */
  lemma {:induction false} AlphaBetaFailSoft(n: Node, depth: nat, alpha: int, beta: int,
                                             best: Option<GameMove>, p: Params)
    requires -p.infinity <= alpha < beta <= p.infinity
    ensures FailSoft(AlphaBeta(n, depth, alpha, beta, best, p).value, Minimax(n, depth, p), alpha, beta)
    decreases depth, 1
  {
    if depth > 0 {
      if n.turn == Black {
        ScanMinFailSoft(n.edges, depth, beta, State(alpha, beta, p.infinity, best), p.infinity, p);
      } else {
        ScanMaxFailSoft(n.edges, depth, alpha, State(alpha, beta, -p.infinity, best), -p.infinity, p);
      }
    }
  }

  /** The minimising loop of a node searched in (alpha, beta0): beta is the smaller of beta0 and
      the value so far, and the minimax accumulator equals the value while it is below beta0. */
  lemma {:induction false} ScanMinFailSoft(es: seq<Edge>, depth: nat, beta0: int, s: State, acc: int, p: Params)
    requires depth >= 1 && -p.infinity <= s.alpha < beta0 <= p.infinity
    requires s.beta == Min(beta0, s.value) && s.alpha < s.value
    requires (s.value < beta0 && acc == s.value) || (s.value >= beta0 && acc >= s.value)
    ensures FailSoft(Scan(Black, es, depth, s, p).value, MinimaxScan(Black, es, depth, acc, p), s.alpha, beta0)
    decreases depth, 0, |es|
  {
    if es == [] {
    } else if LeavesMoverInCheck(es[0]) {
      ScanMinFailSoft(es[1..], depth, beta0, s, acc, p);
    } else {
      var r := AlphaBeta(es[0].child, depth - 1, s.alpha, s.beta, s.best, p);
      var m := Minimax(es[0].child, depth - 1, p);
      AlphaBetaFailSoft(es[0].child, depth - 1, s.alpha, s.beta, s.best, p);
      var t := Step(Black, depth, s, es[0].move, r, p);
      if Cut(Black, t) {
        MinScanBelow(es[1..], depth, Min(acc, m), p);
      } else {
        ScanMinFailSoft(es[1..], depth, beta0, t, Min(acc, m), p);
      }
    }
  }

  /** The maximising loop of a node searched in (alpha0, beta), symmetric to ScanMinFailSoft. */
  lemma {:induction false} ScanMaxFailSoft(es: seq<Edge>, depth: nat, alpha0: int, s: State, acc: int, p: Params)
    requires depth >= 1 && -p.infinity <= alpha0 < s.beta <= p.infinity
    requires s.alpha == Max(alpha0, s.value) && s.value < s.beta
    requires (s.value > alpha0 && acc == s.value) || (s.value <= alpha0 && acc <= s.value)
    ensures FailSoft(Scan(White, es, depth, s, p).value, MinimaxScan(White, es, depth, acc, p), alpha0, s.beta)
    decreases depth, 0, |es|
  {
    if es == [] {
    } else if LeavesMoverInCheck(es[0]) {
      ScanMaxFailSoft(es[1..], depth, alpha0, s, acc, p);
    } else {
      var r := AlphaBeta(es[0].child, depth - 1, s.alpha, s.beta, s.best, p);
      var m := Minimax(es[0].child, depth - 1, p);
      AlphaBetaFailSoft(es[0].child, depth - 1, s.alpha, s.beta, s.best, p);
      var t := Step(White, depth, s, es[0].move, r, p);
      if Cut(White, t) {
        MaxScanAbove(es[1..], depth, Max(acc, m), p);
      } else {
        ScanMaxFailSoft(es[1..], depth, alpha0, t, Max(acc, m), p);
      }
    }
  }

  // ----- The full window

  /** With scores inside [-INFINITY, INFINITY], minimax stays inside too. */
  lemma {:induction false} MinimaxBounded(n: Node, depth: nat, p: Params)
    requires 0 <= p.infinity && Bounded(n, depth, p)
    ensures -p.infinity <= Minimax(n, depth, p) <= p.infinity
    decreases depth, 1
  {
    if depth > 0 {
      MinimaxScanBounded(n.turn, n.edges, depth, Seed(n.turn, p), p);
    }
  }

  lemma {:induction false} MinimaxScanBounded(turn: Side, es: seq<Edge>, depth: nat, acc: int, p: Params)
    requires depth >= 1 && -p.infinity <= acc <= p.infinity
    requires forall e | e in es :: Bounded(e.child, depth - 1, p)
    ensures -p.infinity <= MinimaxScan(turn, es, depth, acc, p) <= p.infinity
    decreases depth, 0, |es|
  {
    if es != [] {
      assert es[0] in es;
      if LeavesMoverInCheck(es[0]) {
        MinimaxScanBounded(turn, es[1..], depth, acc, p);
      } else {
        var m := Minimax(es[0].child, depth - 1, p);
        MinimaxBounded(es[0].child, depth - 1, p);
        MinimaxScanBounded(turn, es[1..], depth, if turn == Black then Min(acc, m) else Max(acc, m), p);
      }
    }
  }

  /** With scores inside [-INFINITY, INFINITY], every search result stays inside too, whatever
      the window. */
  lemma {:induction false} AlphaBetaBounded(n: Node, depth: nat, alpha: int, beta: int,
                                            best: Option<GameMove>, p: Params)
    requires 0 <= p.infinity && Bounded(n, depth, p)
    ensures -p.infinity <= AlphaBeta(n, depth, alpha, beta, best, p).value <= p.infinity
    decreases depth, 1
  {
    if depth > 0 {
      ScanBounded(n.turn, n.edges, depth, State(alpha, beta, Seed(n.turn, p), best), p);
    }
  }

  lemma {:induction false} ScanBounded(turn: Side, es: seq<Edge>, depth: nat, s: State, p: Params)
    requires depth >= 1 && -p.infinity <= s.value <= p.infinity
    requires forall e | e in es :: Bounded(e.child, depth - 1, p)
    ensures -p.infinity <= Scan(turn, es, depth, s, p).value <= p.infinity
    decreases depth, 0, |es|
  {
    if es != [] {
      assert es[0] in es;
      if LeavesMoverInCheck(es[0]) {
        ScanBounded(turn, es[1..], depth, s, p);
      } else {
        var r := AlphaBeta(es[0].child, depth - 1, s.alpha, s.beta, s.best, p);
        AlphaBetaBounded(es[0].child, depth - 1, s.alpha, s.beta, s.best, p);
        var t := Step(turn, depth, s, es[0].move, r, p);
        if !Cut(turn, t) {
          ScanBounded(turn, es[1..], depth, t, p);
        }
      }
    }
  }

  /** Searched with the full window (-INFINITY, INFINITY) and scores inside it, the search
      returns exactly the minimax value. */
  lemma RootValue(n: Node, depth: nat, best: Option<GameMove>, p: Params)
    requires 0 < p.infinity && Bounded(n, depth, p)
    ensures AlphaBeta(n, depth, -p.infinity, p.infinity, best, p).value == Minimax(n, depth, p)
  {
    AlphaBetaFailSoft(n, depth, -p.infinity, p.infinity, best, p);
    AlphaBetaBounded(n, depth, -p.infinity, p.infinity, best, p);
    MinimaxBounded(n, depth, p);
  }

  // ----- The recorded best move

  /** Below MAX_SEARCH_DEPTH the search never touches the recorded move. */
  lemma {:induction false} BestOnlyAtMaxDepth(n: Node, depth: nat, alpha: int, beta: int,
                                              best: Option<GameMove>, p: Params)
    requires depth < p.maxDepth
    ensures AlphaBeta(n, depth, alpha, beta, best, p).best == best
    decreases depth, 1
  {
    if depth > 0 {
      ScanKeepsBest(n.turn, n.edges, depth, State(alpha, beta, Seed(n.turn, p), best), p);
    }
  }

  lemma {:induction false} ScanKeepsBest(turn: Side, es: seq<Edge>, depth: nat, s: State, p: Params)
    requires 1 <= depth < p.maxDepth
    ensures Scan(turn, es, depth, s, p).best == s.best
    decreases depth, 0, |es|
  {
    if es != [] {
      if LeavesMoverInCheck(es[0]) {
        ScanKeepsBest(turn, es[1..], depth, s, p);
      } else {
        var r := AlphaBeta(es[0].child, depth - 1, s.alpha, s.beta, s.best, p);
        BestOnlyAtMaxDepth(es[0].child, depth - 1, s.alpha, s.beta, s.best, p);
        var t := Step(turn, depth, s, es[0].move, r, p);
        if !Cut(turn, t) {
          ScanKeepsBest(turn, es[1..], depth, t, p);
        }
      }
    }
  }

  /** The recorded move is justified by `value`: if the value is still the seed nothing was
      recorded, otherwise the recorded move is a candidate of `all` that does not leave the mover
      in check and whose position has that minimax value. */
  ghost predicate Justified(all: seq<Edge>, depth: nat, seed: int, value: int,
                            best: Option<GameMove>, best0: Option<GameMove>, p: Params)
  {
    && depth >= 1
    && (value == seed ==> best == best0)
    && (value != seed ==>
          exists e | e in all :: !LeavesMoverInCheck(e) && best == Some(e.move)
                                 && Minimax(e.child, depth - 1, p) == value)
  }

  /** A child searched in (-INFINITY, b) whose result is below b has exactly its minimax value. */
  lemma BelowWindowExact(n: Node, depth: nat, b: int, best: Option<GameMove>, p: Params)
    requires 0 < p.infinity && -p.infinity < b <= p.infinity && Bounded(n, depth, p)
    requires AlphaBeta(n, depth, -p.infinity, b, best, p).value < b
    ensures AlphaBeta(n, depth, -p.infinity, b, best, p).value == Minimax(n, depth, p)
  {
    AlphaBetaFailSoft(n, depth, -p.infinity, b, best, p);
    AlphaBetaBounded(n, depth, -p.infinity, b, best, p);
    MinimaxBounded(n, depth, p);
  }

  /** A child searched in (a, INFINITY) whose result is above a has exactly its minimax value. */
  lemma AboveWindowExact(n: Node, depth: nat, a: int, best: Option<GameMove>, p: Params)
    requires 0 < p.infinity && -p.infinity <= a < p.infinity && Bounded(n, depth, p)
    requires AlphaBeta(n, depth, a, p.infinity, best, p).value > a
    ensures AlphaBeta(n, depth, a, p.infinity, best, p).value == Minimax(n, depth, p)
  {
    AlphaBetaFailSoft(n, depth, a, p.infinity, best, p);
    AlphaBetaBounded(n, depth, a, p.infinity, best, p);
    MinimaxBounded(n, depth, p);
  }

  /** The minimising root loop in the full window: beta is the value so far. */
  lemma {:induction false} RootScanMin(all: seq<Edge>, es: seq<Edge>, value: int,
                                       best: Option<GameMove>, best0: Option<GameMove>, p: Params)
    requires 1 <= p.maxDepth && 0 < p.infinity && -p.infinity <= value <= p.infinity
    requires forall e | e in es :: e in all && Bounded(e.child, p.maxDepth - 1, p)
    requires Justified(all, p.maxDepth, p.infinity, value, best, best0, p)
    ensures var out := Scan(Black, es, p.maxDepth, State(-p.infinity, value, value, best), p);
      Justified(all, p.maxDepth, p.infinity, out.value, out.best, best0, p)
    decreases |es|
  {
    if es != [] {
      assert es[0] in es;
      if LeavesMoverInCheck(es[0]) {
        RootScanMin(all, es[1..], value, best, best0, p);
      } else {
        var d := p.maxDepth;
        var r := AlphaBeta(es[0].child, d - 1, -p.infinity, value, best, p);
        BestOnlyAtMaxDepth(es[0].child, d - 1, -p.infinity, value, best, p);
        AlphaBetaBounded(es[0].child, d - 1, -p.infinity, value, best, p);
        var t := Step(Black, d, State(-p.infinity, value, value, best), es[0].move, r, p);
        if t.value < value {
          BelowWindowExact(es[0].child, d - 1, value, best, p);
          assert Justified(all, d, p.infinity, t.value, t.best, best0, p);
        }
        if !Cut(Black, t) {
          RootScanMin(all, es[1..], t.value, t.best, best0, p);
        }
      }
    }
  }

  /** The maximising root loop in the full window: alpha is the value so far. */
  lemma {:induction false} RootScanMax(all: seq<Edge>, es: seq<Edge>, value: int,
                                       best: Option<GameMove>, best0: Option<GameMove>, p: Params)
    requires 1 <= p.maxDepth && 0 < p.infinity && -p.infinity <= value <= p.infinity
    requires forall e | e in es :: e in all && Bounded(e.child, p.maxDepth - 1, p)
    requires Justified(all, p.maxDepth, -p.infinity, value, best, best0, p)
    ensures var out := Scan(White, es, p.maxDepth, State(value, p.infinity, value, best), p);
      Justified(all, p.maxDepth, -p.infinity, out.value, out.best, best0, p)
    decreases |es|
  {
    if es != [] {
      assert es[0] in es;
      if LeavesMoverInCheck(es[0]) {
        RootScanMax(all, es[1..], value, best, best0, p);
      } else {
        var d := p.maxDepth;
        var r := AlphaBeta(es[0].child, d - 1, value, p.infinity, best, p);
        BestOnlyAtMaxDepth(es[0].child, d - 1, value, p.infinity, best, p);
        AlphaBetaBounded(es[0].child, d - 1, value, p.infinity, best, p);
        var t := Step(White, d, State(value, p.infinity, value, best), es[0].move, r, p);
        if t.value > value {
          AboveWindowExact(es[0].child, d - 1, value, best, p);
          assert Justified(all, d, -p.infinity, t.value, t.best, best0, p);
        }
        if !Cut(White, t) {
          RootScanMax(all, es[1..], t.value, t.best, best0, p);
        }
      }
    }
  }

  /** A root search at MAX_SEARCH_DEPTH with the full window and scores inside it: the result is
      the minimax value; if it differs from the seed, the recorded move is a candidate that does not
      leave the mover in check and leads to a position with exactly that minimax value, and if it
      equals the seed, the recorded move is the one the field held before. */
  lemma RootBestMove(n: Node, best: Option<GameMove>, p: Params)
    requires 1 <= p.maxDepth && 0 < p.infinity && Bounded(n, p.maxDepth, p)
    ensures var r := AlphaBeta(n, p.maxDepth, -p.infinity, p.infinity, best, p);
      && r.value == Minimax(n, p.maxDepth, p)
      && (r.value == Seed(n.turn, p) ==> r.best == best)
      && (r.value != Seed(n.turn, p) ==>
            exists e | e in n.edges :: !LeavesMoverInCheck(e) && r.best == Some(e.move)
                                       && Minimax(e.child, p.maxDepth - 1, p) == r.value)
  {
    RootValue(n, p.maxDepth, best, p);
    if n.turn == Black {
      RootScanMin(n.edges, n.edges, p.infinity, best, best, p);
    } else {
      RootScanMax(n.edges, n.edges, -p.infinity, best, best, p);
    }
  }

  // ----- Skipped candidates and empty nodes

  /** Candidates that leave the mover in check change nothing: the loop over all candidates gives
      the same result as the loop over the others alone. */
  lemma {:induction false} ScanLegal(turn: Side, es: seq<Edge>, depth: nat, s: State, p: Params)
    requires depth >= 1
    ensures Scan(turn, es, depth, s, p) == Scan(turn, Legal(es), depth, s, p)
    decreases |es|
  {
    if es != [] {
      if LeavesMoverInCheck(es[0]) {
        ScanLegal(turn, es[1..], depth, s, p);
      } else {
        var ls := Legal(es);
        assert ls == [es[0]] + Legal(es[1..]);
        assert ls != [] && ls[0] == es[0] && ls[1..] == Legal(es[1..]);
        var r := AlphaBeta(es[0].child, depth - 1, s.alpha, s.beta, s.best, p);
        var t := Step(turn, depth, s, es[0].move, r, p);
        if !Cut(turn, t) {
          ScanLegal(turn, es[1..], depth, t, p);
        }
      }
    }
  }

  /** Legal keeps exactly the candidates that do not leave the mover in check. */
  lemma {:induction false} LegalMembers(es: seq<Edge>)
    ensures forall e :: e in Legal(es) <==> e in es && !LeavesMoverInCheck(e)
  {
    if es != [] {
      LegalMembers(es[1..]);
      assert es == [es[0]] + es[1..];
    }
  }

  /** Removing the candidates that leave the mover in check from a node does not change its search. */
  lemma SkippedCandidates(n: Node, depth: nat, alpha: int, beta: int, best: Option<GameMove>, p: Params)
    ensures AlphaBeta(n, depth, alpha, beta, best, p)
         == AlphaBeta(n.(edges := Legal(n.edges)), depth, alpha, beta, best, p)
  {
    if depth > 0 {
      ScanLegal(n.turn, n.edges, depth, State(alpha, beta, Seed(n.turn, p), best), p);
    }
  }

  /** A node searched to depth at least 1 whose every candidate leaves the mover in check returns
      INFINITY when Black is to move and -INFINITY when White is, and records nothing. */
  lemma NoCandidates(n: Node, depth: nat, alpha: int, beta: int, best: Option<GameMove>, p: Params)
    requires depth >= 1 && forall e | e in n.edges :: LeavesMoverInCheck(e)
    ensures AlphaBeta(n, depth, alpha, beta, best, p)
         == Outcome(if n.turn == Black then p.infinity else -p.infinity, best)
  {
    ScanLegal(n.turn, n.edges, depth, State(alpha, beta, Seed(n.turn, p), best), p);
    LegalMembers(n.edges);
  }

  /** The value only moves one way: at a minimising node it never rises above the value the loop
      starts from, at a maximising node it never falls below it. */
  lemma {:induction false} ScanMonotone(turn: Side, es: seq<Edge>, depth: nat, s: State, p: Params)
    requires depth >= 1
    ensures turn == Black ==> Scan(turn, es, depth, s, p).value <= s.value
    ensures turn == White ==> Scan(turn, es, depth, s, p).value >= s.value
    decreases |es|
  {
    if es != [] {
      if LeavesMoverInCheck(es[0]) {
        ScanMonotone(turn, es[1..], depth, s, p);
      } else {
        var r := AlphaBeta(es[0].child, depth - 1, s.alpha, s.beta, s.best, p);
        ScanMonotone(turn, es[1..], depth, Step(turn, depth, s, es[0].move, r, p), p);
      }
    }
  }

  // ----- One step of the candidate loop

  /** A candidate that leaves the mover in check is passed over. */
  lemma ScanSkip(turn: Side, es: seq<Edge>, depth: nat, s: State, p: Params)
    requires depth >= 1 && es != [] && LeavesMoverInCheck(es[0])
    ensures Scan(turn, es, depth, s, p) == Scan(turn, es[1..], depth, s, p)
  {
  }

  /** Any other candidate is searched in the current window and then either ends the loop or
      updates its variables. */
  lemma ScanCandidate(turn: Side, es: seq<Edge>, depth: nat, s: State, r: Outcome, p: Params)
    requires depth >= 1 && es != [] && !LeavesMoverInCheck(es[0])
    requires r == AlphaBeta(es[0].child, depth - 1, s.alpha, s.beta, s.best, p)
    ensures var t := Step(turn, depth, s, es[0].move, r, p);
      Scan(turn, es, depth, s, p) == if Cut(turn, t) then Outcome(t.value, t.best) else Scan(turn, es[1..], depth, t, p)
  {
  }

  // ----- The search object

  class SingleThreadedSearch {
    var game: Game
    /** The best root move found so far, or nil. */
    var bestMove: Option<GameMove>
    const side: Side
    const params: Params

    constructor (game: Game, side: Side, params: Params)
      ensures this.game == game && this.side == side && this.params == params && bestMove == None
    {
      this.game := game;
      this.side := side;
      this.params := params;
      bestMove := None;
    }

    /** The recorded best move; the field must hold one. */
    method GetBestMove() returns (m: GameMove)
      requires bestMove.Some?
      ensures bestMove == Some(m)
    {
      m := bestMove.value;
    }

    /** Forgets the recorded best move. */
    method UpdateCurrentNode(move: GameMove)
      modifies this`bestMove
      ensures bestMove == None
    {
      bestMove := None;
    }

    /** The update after one candidate whose search returned `current`: at a minimising node the
        value drops to `current` if that is lower and beta follows it down, at a maximising node
        the value rises and alpha follows it up; at MAX_SEARCH_DEPTH the move that moved the
        bound is recorded. */
    method Improve(minimize: bool, depth: int, alpha: int, beta: int, value: int, current: int,
                   move: GameMove, best: Option<GameMove>)
      returns (a: int, b: int, v: int, bm: Option<GameMove>)
      requires depth >= 0
      ensures State(a, b, v, bm)
           == Step(if minimize then Black else White, depth, State(alpha, beta, value, best), move,
                   Outcome(current, best), params)
    {
      a, b, v, bm := alpha, beta, value, best;
      if minimize {
        if current < v {
          v := current;
        }
        if v < b {
          b := v;
          if depth == params.maxDepth {
            bm := Some(move);
          }
        }
      } else {
        if current > v {
          v := current;
        }
        if v > a {
          a := v;
          if depth == params.maxDepth {
            bm := Some(move);
          }
        }
      }
    }

    /** Searches the game's current position to `depth` plies in the window (alpha, beta): the
        result and the recorded best move are those of AlphaBeta, and every move made is undone. */
    method AlphaBetaSearch(game: Game, depth: int, alpha: int, beta: int) returns (v: int)
      requires game.Valid() && depth >= 0
      modifies this`bestMove, game
      ensures game.Valid() && game.history == old(game.history)
      ensures Outcome(v, bestMove) == AlphaBeta(old(game.Current()), depth, alpha, beta, old(bestMove), params)
      decreases depth, 1
    {
      if depth == 0 {
        return Evaluate(game.Current());
      }
      ghost var n := game.Current();
      ghost var best0 := bestMove;
      var minimize := game.Turn() == Black;
      var value := if minimize then params.infinity else -params.infinity;
      var a, b := alpha, beta;
      var moves := game.GenerateMoves();
      ghost var target := AlphaBeta(n, depth, alpha, beta, best0, params);
      assert moves[0..] == moves;
      for k := 0 to |moves|
        invariant game.history == old(game.history)
        invariant Scan(n.turn, moves[k..], depth, State(a, b, value, bestMove), params) == target
      {
        var move := moves[k];
        assert moves[k..][0] == move && moves[k..][1..] == moves[k + 1..];
        ghost var s := State(a, b, value, bestMove);
        var cut;
        a, b, value, cut := SearchMove(game, depth, minimize, move, a, b, value);
        if LeavesMoverInCheck(move) {
          ScanSkip(n.turn, moves[k..], depth, s, params);
        } else {
          ScanCandidate(n.turn, moves[k..], depth, s,
                        AlphaBeta(move.child, depth - 1, s.alpha, s.beta, s.best, params), params);
        }
        if cut {
          return value;
        }
      }
      return value;
    }

    /** One pass of the candidate loop: makes the move; if it leaves the mover in check, undoes it
        and changes nothing; otherwise searches the resulting position one ply shallower in the
        current window, undoes the move and applies the update, and reports whether the loop is cut. */
    method SearchMove(game: Game, depth: int, minimize: bool, move: Edge, alpha: int, beta: int, value: int)
      returns (a: int, b: int, v: int, cut: bool)
      requires game.Valid() && depth >= 1 && move in game.Current().edges
      requires minimize == (game.Turn() == Black)
      modifies this`bestMove, game
      ensures game.Valid() && game.history == old(game.history)
      ensures LeavesMoverInCheck(move) ==> State(a, b, v, bestMove) == State(alpha, beta, value, old(bestMove)) && !cut
      ensures !LeavesMoverInCheck(move) ==>
        var t := Step(old(game.Turn()), depth, State(alpha, beta, value, old(bestMove)), move.move,
                      AlphaBeta(move.child, depth - 1, alpha, beta, old(bestMove), params), params);
        State(a, b, v, bestMove) == t && cut == Cut(old(game.Turn()), t)
      decreases depth, 0
    {
      a, b, v, cut := alpha, beta, value, false;
      game.MakeMove(move);
      if game.InCheck(if game.Turn() == White then Black else White) {
        game.UndoMove();
        return;
      }
      var current := AlphaBetaSearch(game, depth - 1, alpha, beta);
      game.UndoMove();
      a, b, v, bestMove := Improve(minimize, depth, alpha, beta, value, current, move.move, bestMove);
      cut := if minimize then v <= a else v >= b;
    }
  }
}
