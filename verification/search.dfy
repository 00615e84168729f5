/**
 What the exhaustive and the alpha-beta search share: the result triple
 `(value, moveList, moveTree)` and the running best of a node's move loop.
 */
module Search {
  import opened Values
  import opened Game

  /** The result `(value, moveList, moveTree)` of `minimax` and `alphabeta`. */
  datatype Outcome = Outcome(value: real, line: seq<Move>, tree: MoveTree)

  /** The answer at depth 0, and (as a leaf) at a position with no moves:
      `(evaluate(board), [], {})`. */
  function Leaf(g: Rules, p: Position): Outcome
  {
    Outcome(Score(g, p), [], Empty)
  }

  /** The loop variables `value`, `bestMove` and `moveList` of a node. */
  datatype Best = Best(value: Value, move: Option<Move>, line: seq<Move>)

  /** Before the first move: `value = ±math.inf`, `bestMove = None`, `moveList = []`. */
  function Start(s: Side): Best
  {
    Best(Worst(s), None, [])
  }

  /** Once some move has been adopted, the value is finite and a move is known. */
  predicate Settled(b: Best)
  {
    b.value.Fin? && b.move.Some?
  }

  /** Every running best of a node's loop is either the start or settled. */
  predicate Valid(s: Side, b: Best)
  {
    b == Start(s) || Settled(b)
  }

  /** One step of a node's loop: the child reached by `m` replaces the
      running best only when it is strictly better, so a later tie never
      overwrites the first move that reached the extreme. */
  function Consider(s: Side, b: Best, m: Move, child: Outcome): (r: Best)
    requires Valid(s, b)
    ensures Settled(r)
    ensures r == b || Improves(s, r.value, b.value)
    ensures !Improves(s, Fin(child.value), r.value)
    ensures r != b <==> Improves(s, Fin(child.value), b.value)
    ensures r != b ==> r == Best(Fin(child.value), Some(m), child.line)
  {
    if Improves(s, Fin(child.value), b.value) then Best(Fin(child.value), Some(m), child.line) else b
  }

  /** `(value, [decode(bestMove), *moveList], moveTree)` at the end of a node. */
  function Finish(b: Best, tree: MoveTree): (r: Outcome)
    requires Settled(b)
  {
    Outcome(b.value.v, [b.move.value] + b.line, tree)
  }
}
