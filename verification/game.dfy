/**
 The game the searches run on, seen only through the services the chess
 library offers: the side's pieces, the squares a piece can reach, the
 promotion a move earns, the move itself, and the static evaluation. The
 library is not part of this model; its services are the fields of `Rules`,
 about which nothing is assumed beyond being functions.
 */
module Game {
  import opened Values

  /** Board layout, castling/en-passant flags, a piece entry of the board, a
      square, and the kind of piece a pawn promotes to: all opaque here. */
  type Board
  type Flags
  type Piece
  type Square(==, !new)
  type Kind(==, !new)

  datatype Option<T> = None | Some(value: T)

  /** A move `[fro, to, promote]`. The move token of the source
      (`encode(*move)`) is a bijection with moves, so moves are their own
      tokens here. */
  datatype Move = Move(from: Square, to: Square, promote: Option<Kind>)

  /** The `(side, board, flags)` triple threaded through every transition. */
  datatype Position = Position(side: Side, board: Board, flags: Flags)

  /** The chess library's services. */
  datatype Rules = Rules(
    pieces: (Side, Board) -> seq<Piece>,                                 // board[side]
    origin: Piece -> Square,                                             // piece[:2]
    reachable: (Side, Board, Piece, Flags) -> seq<Square>,              // availableMoves
    promotion: (Side, Board, Square, Square) -> Option<Kind>,           // getPromote(..., single=True)
    makeMove: (Side, Board, Square, Square, Flags, Option<Kind>) -> Position,
    evaluate: Board -> real)

  /** The tree of moves a search looked at: each move token maps to the tree
      explored below it. */
  datatype MoveTree = Node(kids: map<Move, MoveTree>)

  const Empty: MoveTree := Node(map[])

  /** The move from `piece` to `to`, with the promotion the library assigns. */
  function Candidate(g: Rules, p: Position, piece: Piece, to: Square): Move
  {
    var from := g.origin(piece);
    Move(from, to, g.promotion(p.side, p.board, from, to))
  }

  /** The moves of `piece` to each of `dests`, in order. */
  function MovesTo(g: Rules, p: Position, piece: Piece, dests: seq<Square>): (r: seq<Move>)
    ensures |r| == |dests|
  {
    if dests == [] then [] else [Candidate(g, p, piece, dests[0])] + MovesTo(g, p, piece, dests[1..])
  }

  /** The `i`-th move to `dests` goes to `dests[i]`. */
  lemma {:induction false} MovesToIndex(g: Rules, p: Position, piece: Piece, dests: seq<Square>)
    ensures forall i :: 0 <= i < |dests| ==> MovesTo(g, p, piece, dests)[i] == Candidate(g, p, piece, dests[i])
  {
    if dests != [] {
      MovesToIndex(g, p, piece, dests[1..]);
      forall i | 0 < i < |dests|
        ensures MovesTo(g, p, piece, dests)[i] == Candidate(g, p, piece, dests[i])
      {
        assert dests[i] == dests[1..][i - 1];
      }
    }
  }

  /** The inner loop of `generateMoves`: every destination of one piece, in
      the library's order. */
  function PieceMoves(g: Rules, p: Position, piece: Piece): seq<Move>
  {
    MovesTo(g, p, piece, g.reachable(p.side, p.board, piece, p.flags))
  }

  /** The outer loop of `generateMoves` over a list of pieces. */
  function PiecesMoves(g: Rules, p: Position, pieces: seq<Piece>): (r: seq<Move>)
    ensures |r| == MoveCount(g, p, pieces)
  {
    if pieces == [] then [] else PieceMoves(g, p, pieces[0]) + PiecesMoves(g, p, pieces[1..])
  }

  /** Number of moves a list of pieces has, summed over the pieces. */
  function MoveCount(g: Rules, p: Position, pieces: seq<Piece>): nat
  {
    if pieces == [] then 0
    else |g.reachable(p.side, p.board, pieces[0], p.flags)| + MoveCount(g, p, pieces[1..])
  }

  /** `generateMoves(side, board, flags)`: all moves of the side to move,
      piece by piece, destination by destination. */
  function GenerateMoves(g: Rules, p: Position): seq<Move>
  {
    PiecesMoves(g, p, g.pieces(p.side, p.board))
  }

  /** `m` is a move of the side to move: some piece of that side reaches
      `m.to` from `m.from`, with the promotion the library assigns. */
  ghost predicate IsMove(g: Rules, p: Position, m: Move)
  {
    exists piece :: piece in g.pieces(p.side, p.board)
      && m.to in g.reachable(p.side, p.board, piece, p.flags)
      && m == Candidate(g, p, piece, m.to)
  }

  /** The enumeration yields one move per (piece, destination) pair, every
      move it yields is one, and every such pair is yielded. */
  lemma {:induction false} PiecesMovesExact(g: Rules, p: Position, pieces: seq<Piece>)
    ensures |PiecesMoves(g, p, pieces)| == MoveCount(g, p, pieces)
    ensures forall m :: m in PiecesMoves(g, p, pieces) <==>
              exists piece :: piece in pieces
                && m.to in g.reachable(p.side, p.board, piece, p.flags)
                && m == Candidate(g, p, piece, m.to)
  {
    if pieces != [] {
      PiecesMovesExact(g, p, pieces[1..]);
      var here := PieceMoves(g, p, pieces[0]);
      var dests := g.reachable(p.side, p.board, pieces[0], p.flags);
      MovesToIndex(g, p, pieces[0], dests);
      forall m
        ensures m in PiecesMoves(g, p, pieces) <==>
                exists piece :: piece in pieces
                  && m.to in g.reachable(p.side, p.board, piece, p.flags)
                  && m == Candidate(g, p, piece, m.to)
      {
        if m in here {
          var i :| 0 <= i < |here| && here[i] == m;
          assert m.to == dests[i];
        }
        if m.to in dests && m == Candidate(g, p, pieces[0], m.to) {
          var i :| 0 <= i < |dests| && dests[i] == m.to;
          assert here[i] == m;
        }
        forall piece | piece in pieces
          ensures piece == pieces[0] || piece in pieces[1..]
        {
        }
      }
    }
  }

  /** The moves of `generateMoves` are exactly the moves of the side to move. */
  lemma GenerateMovesExact(g: Rules, p: Position)
    ensures |GenerateMoves(g, p)| == MoveCount(g, p, g.pieces(p.side, p.board))
    ensures forall m :: m in GenerateMoves(g, p) <==> IsMove(g, p, m)
  {
    PiecesMovesExact(g, p, g.pieces(p.side, p.board));
  }

  /** The inner loop of `generateMoves` as the source writes it: one move
      per destination of `piece`, in the library's order. */
  method EnumeratePieceMoves(g: Rules, p: Position, piece: Piece) returns (ms: seq<Move>)
    ensures ms == PieceMoves(g, p, piece)
  {
    var from := g.origin(piece);
    var dests := g.reachable(p.side, p.board, piece, p.flags);
    ghost var all := PieceMoves(g, p, piece);
    MovesToIndex(g, p, piece, dests);
    ms := [];
    var j := 0;
    while j < |dests|
      invariant 0 <= j <= |dests|
      invariant ms == all[..j]
    {
      var promote := g.promotion(p.side, p.board, from, dests[j]);
      assert all[..j + 1] == all[..j] + [Move(from, dests[j], promote)];
      ms := ms + [Move(from, dests[j], promote)];
      j := j + 1;
    }
    assert all[..j] == all;
  }

  /** `generateMoves` as the source writes it: a loop over the side's pieces
      that appends each piece's moves. It yields the same sequence as the
      functional definition the searches use. */
  method EnumerateMoves(g: Rules, p: Position) returns (ms: seq<Move>)
    ensures ms == GenerateMoves(g, p)
  {
    var pieces := g.pieces(p.side, p.board);
    ms := [];
    var i := 0;
    while i < |pieces|
      invariant 0 <= i <= |pieces|
      invariant ms + PiecesMoves(g, p, pieces[i..]) == GenerateMoves(g, p)
    {
      var here := EnumeratePieceMoves(g, p, pieces[i]);
      assert PiecesMoves(g, p, pieces[i..]) == here + PiecesMoves(g, p, pieces[i + 1..]) by {
        assert pieces[i..][1..] == pieces[i + 1..];
      }
      ms := ms + here;
      i := i + 1;
    }
  }

  /** The position after a move (`makeMove`). */
  function Next(g: Rules, p: Position, m: Move): Position
  {
    g.makeMove(p.side, p.board, m.from, m.to, p.flags, m.promote)
  }

  /** The static value of a position (`evaluate(board)`). */
  function Score(g: Rules, p: Position): real
  {
    g.evaluate(p.board)
  }

  /** The position reached by playing `line` from `p`. */
  function Play(g: Rules, p: Position, line: seq<Move>): Position
    decreases line
  {
    if line == [] then p else Play(g, Next(g, p, line[0]), line[1..])
  }

  /** A line returned by a search is complete: it is at most `depth` moves
      long and stops short only at a position with no moves. */
  predicate Complete(g: Rules, p: Position, line: seq<Move>, depth: nat)
  {
    |line| <= depth && (|line| < depth ==> GenerateMoves(g, Play(g, p, line)) == [])
  }
}
