/**
 `minimax(side, board, flags, depth)`: full-width search to a fixed depth.
 Each child is searched once and its result reused for the tree, the
 comparison and the move list.
 */
module Minimax {
  import opened Values
  import opened Game
  import opened Search

  /** The loop state of a node: the running best and the tree built so far. */
  datatype Sweep = Sweep(best: Best, kids: map<Move, MoveTree>)

  /** The result of searching `p` to `depth` plies. */
  function Minimax(g: Rules, p: Position, depth: nat): (r: Outcome)
    ensures r.line == [] <==> depth == 0 || GenerateMoves(g, p) == []
    decreases depth, 1
  {
    var ms := GenerateMoves(g, p);
    if depth == 0 || ms == [] then Leaf(g, p)
    else
      var w := Scan(g, p, depth, ms, Sweep(Start(p.side), map[]));
      Finish(w.best, Node(w.kids))
  }

  /** The child result the loop of node `p` computes for move `m`. */
  function Child(g: Rules, p: Position, depth: nat, m: Move): Outcome
    requires depth > 0
    decreases depth, 0, 0
  {
    Minimax(g, Next(g, p, m), depth - 1)
  }

  /** The `for move in moves` loop of a node at `depth`: record the child's
      tree under the move, then compare the child's value. */
  function Scan(g: Rules, p: Position, depth: nat, ms: seq<Move>, w: Sweep): (r: Sweep)
    requires depth > 0
    requires Valid(p.side, w.best)
    ensures Valid(p.side, r.best)
    ensures ms != [] ==> Settled(r.best)
    decreases depth, 0, |ms|
  {
    if ms == [] then w
    else
      var child := Child(g, p, depth, ms[0]);
      Scan(g, p, depth, ms[1..], Sweep(Consider(p.side, w.best, ms[0], child), w.kids[ms[0] := child.tree]))
  }

  /** The loop gives the tree exactly one more entry per move, holding that
      move's child tree, and keeps the entries it started with. */
  lemma {:induction false} ScanTree(g: Rules, p: Position, depth: nat, ms: seq<Move>, w: Sweep)
    requires depth > 0
    requires Valid(p.side, w.best)
    ensures var r := Scan(g, p, depth, ms, w);
      && r.kids.Keys == w.kids.Keys + (set m | m in ms)
      && (forall m :: m in ms ==> r.kids[m] == Child(g, p, depth, m).tree)
      && (forall m :: m in w.kids && m !in ms ==> r.kids[m] == w.kids[m])
    decreases |ms|
  {
    if ms != [] {
      var child := Child(g, p, depth, ms[0]);
      var w' := Sweep(Consider(p.side, w.best, ms[0], child), w.kids[ms[0] := child.tree]);
      ScanTree(g, p, depth, ms[1..], w');
      TreeStep(g, p, depth, ms, w.kids, Scan(g, p, depth, ms[1..], w').kids);
    }
  }

  /** One step of `ScanTree`: what the rest of the loop leaves, after the
      first move's entry was recorded, is what the whole loop promises. */
  lemma TreeStep(g: Rules, p: Position, depth: nat, ms: seq<Move>, start: map<Move, MoveTree>, r: map<Move, MoveTree>)
    requires depth > 0 && ms != []
    requires var w := start[ms[0] := Child(g, p, depth, ms[0]).tree];
      && r.Keys == w.Keys + (set m | m in ms[1..])
      && (forall m :: m in ms[1..] ==> r[m] == Child(g, p, depth, m).tree)
      && (forall m :: m in w && m !in ms[1..] ==> r[m] == w[m])
    ensures r.Keys == start.Keys + (set m | m in ms)
    ensures forall m :: m in ms ==> r[m] == Child(g, p, depth, m).tree
    ensures forall m :: m in start && m !in ms ==> r[m] == start[m]
  {
    assert (set m | m in ms) == {ms[0]} + (set m | m in ms[1..]);
    forall m | m in ms
      ensures r[m] == Child(g, p, depth, m).tree
    {
      if m !in ms[1..] {
        assert m == ms[0];
      }
    }
  }

  /** No child value beats the loop's result, and the result is no worse
      than the state the loop started from. */
  lemma {:induction false} ScanBound(g: Rules, p: Position, depth: nat, ms: seq<Move>, w: Sweep)
    requires depth > 0
    requires Valid(p.side, w.best)
    ensures var r := Scan(g, p, depth, ms, w);
      && (forall j :: 0 <= j < |ms| ==> !Improves(p.side, Fin(Child(g, p, depth, ms[j]).value), r.best.value))
      && !Improves(p.side, w.best.value, r.best.value)
    decreases |ms|
  {
    if ms != [] {
      var child := Child(g, p, depth, ms[0]);
      var w' := Sweep(Consider(p.side, w.best, ms[0], child), w.kids[ms[0] := child.tree]);
      ScanBound(g, p, depth, ms[1..], w');
      var r := Scan(g, p, depth, ms[1..], w');
      forall j | 0 < j < |ms|
        ensures !Improves(p.side, Fin(Child(g, p, depth, ms[j]).value), r.best.value)
      {
        assert ms[j] == ms[1..][j - 1];
      }
    }
  }

  /** The loop's result is the state it started from, or it was adopted from
      the FIRST move whose child reached it: every earlier child is strictly
      worse, and so is the starting state. */
  lemma {:induction false} ScanWitness(g: Rules, p: Position, depth: nat, ms: seq<Move>, w: Sweep)
    requires depth > 0
    requires Valid(p.side, w.best)
    ensures var r := Scan(g, p, depth, ms, w);
      || r.best == w.best
      || exists k :: 0 <= k < |ms| && r.best.move == Some(ms[k])
           && r.best.value == Fin(Child(g, p, depth, ms[k]).value)
           && r.best.line == Child(g, p, depth, ms[k]).line
           && Improves(p.side, r.best.value, w.best.value)
           && forall j :: 0 <= j < k ==> Improves(p.side, r.best.value, Fin(Child(g, p, depth, ms[j]).value))
    decreases |ms|
  {
    if ms != [] {
      var child := Child(g, p, depth, ms[0]);
      var w' := Sweep(Consider(p.side, w.best, ms[0], child), w.kids[ms[0] := child.tree]);
      ScanWitness(g, p, depth, ms[1..], w');
      ScanBound(g, p, depth, ms[1..], w');
      var r := Scan(g, p, depth, ms[1..], w');
      if r.best != w.best && r.best != w'.best {
        var k :| 0 <= k < |ms[1..]| && r.best.move == Some(ms[1..][k])
           && r.best.value == Fin(Child(g, p, depth, ms[1..][k]).value)
           && r.best.line == Child(g, p, depth, ms[1..][k]).line
           && Improves(p.side, r.best.value, w'.best.value)
           && forall j :: 0 <= j < k ==> Improves(p.side, r.best.value, Fin(Child(g, p, depth, ms[1..][j]).value));
        assert ms[k + 1] == ms[1..][k];
        ShiftWorse(g, p, depth, ms, k, r.best.value);
      }
    }
  }

  /** A value strictly better than the first child and than the children
      of `ms[1..]` before position `k` is strictly better than the children
      of `ms` before position `k + 1`. */
  lemma ShiftWorse(g: Rules, p: Position, depth: nat, ms: seq<Move>, k: nat, v: Value)
    requires depth > 0 && k < |ms| - 1
    requires Improves(p.side, v, Fin(Child(g, p, depth, ms[0]).value))
    requires forall j :: 0 <= j < k ==> Improves(p.side, v, Fin(Child(g, p, depth, ms[1..][j]).value))
    ensures forall j :: 0 <= j < k + 1 ==> Improves(p.side, v, Fin(Child(g, p, depth, ms[j]).value))
  {
    forall j | 0 <= j < k + 1
      ensures Improves(p.side, v, Fin(Child(g, p, depth, ms[j]).value))
    {
      if j > 0 {
        assert ms[j] == ms[1..][j - 1];
      }
    }
  }

  /** At depth 0, and at a position with no moves, the search answers
      `(evaluate(board), [], {})`. */
  lemma MinimaxLeaf(g: Rules, p: Position, depth: nat)
    requires depth == 0 || GenerateMoves(g, p) == []
    ensures Minimax(g, p, depth) == Outcome(Score(g, p), [], Empty)
  {
  }

  /** At an inner node the minimiser returns the smallest child value and the
      maximiser the largest; the move chosen is the FIRST move whose child
      reaches that value (strict replacement), and the move list is that move
      followed by its child's move list. */
  lemma MinimaxChoice(g: Rules, p: Position, depth: nat)
    requires depth > 0 && GenerateMoves(g, p) != []
    ensures var ms, r := GenerateMoves(g, p), Minimax(g, p, depth);
      && (forall m :: m in ms ==>
           if p.side.Min? then r.value <= Child(g, p, depth, m).value
           else r.value >= Child(g, p, depth, m).value)
      && |r.line| > 0
      && r.line[1..] == Child(g, p, depth, r.line[0]).line
      && exists k :: 0 <= k < |ms| && r.line[0] == ms[k]
           && r.value == Child(g, p, depth, ms[k]).value
           && forall j :: 0 <= j < k ==>
                if p.side.Min? then Child(g, p, depth, ms[j]).value > r.value
                else Child(g, p, depth, ms[j]).value < r.value
  {
    var ms := GenerateMoves(g, p);
    var w := Sweep(Start(p.side), map[]);
    ScanBound(g, p, depth, ms, w);
    ScanWitness(g, p, depth, ms, w);
    forall m | m in ms
      ensures if p.side.Min? then Minimax(g, p, depth).value <= Child(g, p, depth, m).value
              else Minimax(g, p, depth).value >= Child(g, p, depth, m).value
    {
      var j :| 0 <= j < |ms| && ms[j] == m;
    }
  }

  /** The tree has exactly one key per enumerated move, each holding that
      move's full child tree, whether or not the move is chosen; it is empty
      at depth 0. */
  lemma MinimaxTree(g: Rules, p: Position, depth: nat)
    ensures var ms, t := GenerateMoves(g, p), Minimax(g, p, depth).tree;
      && t.kids.Keys == (if depth == 0 then {} else set m | m in ms)
      && forall m :: m in t.kids ==> depth > 0 && t.kids[m] == Child(g, p, depth, m).tree
  {
    if depth > 0 && GenerateMoves(g, p) != [] {
      ScanTree(g, p, depth, GenerateMoves(g, p), Sweep(Start(p.side), map[]));
    }
  }

  /** At an inner node the value and the rest of the move list are those of
      the child of the first move. */
  lemma MinimaxStep(g: Rules, p: Position, depth: nat)
    requires depth > 0 && GenerateMoves(g, p) != []
    ensures var r := Minimax(g, p, depth);
      && |r.line| > 0
      && r.line[1..] == Child(g, p, depth, r.line[0]).line
      && r.value == Child(g, p, depth, r.line[0]).value
  {
    MinimaxChoice(g, p, depth);
  }

  /** The move list is a complete line: at most `depth` moves, shorter only
      when it ends at a position with no moves, and the value is the
      evaluation of the board it reaches. */
  lemma {:induction false} MinimaxLine(g: Rules, p: Position, depth: nat)
    ensures var r := Minimax(g, p, depth);
      Complete(g, p, r.line, depth) && Score(g, Play(g, p, r.line)) == r.value
    decreases depth
  {
    if depth > 0 && GenerateMoves(g, p) != [] {
      MinimaxStep(g, p, depth);
      var r := Minimax(g, p, depth);
      var m := r.line[0];
      MinimaxLine(g, Next(g, p, m), depth - 1);
      assert Play(g, p, r.line) == Play(g, Next(g, p, m), r.line[1..]);
    }
  }
}
