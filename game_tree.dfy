/** The game the search drives, as an abstract finite game tree. The move
    generator, the check test and the evaluator are outside this model: a
    position carries their answers (its pseudo-legal moves in generation
    order, each with the position it leads to; which sides are in check; its
    static score). */
module GameTree {
  import opened ChessTypes

  datatype Node = Node(turn: Side, score: int, checked: set<Side>, edges: seq<Edge>)

  /** A generated move and the position that making it produces. */
  datatype Edge = Edge(move: GameMove, child: Node)

  /** The static evaluation of a position. */
  function Evaluate(n: Node): int
  {
    n.score
  }

  /** The game object: the positions along the line currently being examined,
      root first; making a move pushes, undoing it pops. */
  class Game {
    var history: seq<Node>

    ghost predicate Valid()
      reads this
    {
      |history| >= 1
    }

    constructor (root: Node)
      ensures Valid() && history == [root]
    {
      history := [root];
    }

    /** The position the game is in. */
    function Current(): Node
      requires Valid()
      reads this
    {
      history[|history| - 1]
    }

    function Turn(): Side
      requires Valid()
      reads this
    {
      Current().turn
    }

    predicate InCheck(side: Side)
      requires Valid()
      reads this
    {
      side in Current().checked
    }

    method GenerateMoves() returns (moves: seq<Edge>)
      requires Valid()
      ensures moves == Current().edges
    {
      moves := Current().edges;
    }

    method MakeMove(e: Edge)
      requires Valid() && e in Current().edges
      modifies this
      ensures Valid() && history == old(history) + [e.child] && Current() == e.child
      ensures history[..|history| - 1] == old(history)
    {
      history := history + [e.child];
    }

    method UndoMove()
      requires |history| >= 2
      modifies this
      ensures Valid() && history == old(history)[..|old(history)| - 1]
    {
      history := history[..|history| - 1];
    }
  }
}
