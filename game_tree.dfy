/** The game as the search sees it. The board class of the isolation game is
    not part of this model: a position is a node of a finite game tree whose
    legal moves, in the order the board reports them, lead to the successor
    positions the board's forecast would produce. */
module GameTree {
  import opened Scores

  /** A board coordinate (row, column). */
  datatype Move = Move(row: int, col: int)

  /** The coordinate (-1, -1) the agent returns when it has no move. */
  const NoMove: Move := Move(-1, -1)

  /** The player a leaf is scored for: the board's active or inactive player. */
  datatype Player = Active | Inactive

  /** A position: an opaque board identity and the legal moves with their successors. */
  datatype Game = Game(board: int, moves: seq<Ply>)

  datatype Ply = Ply(move: Move, next: Game)

  /** What a search call returns: a score and the move that achieves it. */
  datatype SearchResult = SearchResult(score: Ext, move: Move)

  /** The pluggable evaluator `score(game, player)`. */
  type Evaluator = (Game, Player) -> Ext
}
