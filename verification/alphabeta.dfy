/**
 `alphabeta(side, board, flags, depth, alpha=-inf, beta=inf)`: the minimax
 search with a window. Siblings see the window as earlier siblings tightened
 it, and the move loop stops right after the move whose running value falls
 outside it. Each child is searched once and its result reused.
 */
module AlphaBeta {
  import opened Values
  import opened Game
  import opened Search
  import Minimax

  /** The loop state of a node: the running best, the window, the tree built
      so far, and how many moves the loop has taken. */
  datatype Frame = Frame(best: Best, alpha: Value, beta: Value, kids: map<Move, MoveTree>, seen: nat)

  /** The result of searching `p` to `depth` plies with window `(alpha, beta)`. */
  function AlphaBeta(g: Rules, p: Position, depth: nat, alpha: Value, beta: Value): (r: Outcome)
    ensures r.line == [] <==> depth == 0 || GenerateMoves(g, p) == []
    decreases depth, 1
  {
    var ms := GenerateMoves(g, p);
    if depth == 0 || ms == [] then Leaf(g, p)
    else
      var f := Scan(g, p, depth, ms, Frame(Start(p.side), alpha, beta, map[], 0));
      Finish(f.best, Node(f.kids))
  }

  /** One pass of the loop body: record the child's tree, compare its value,
      then tighten the node's own bound (`beta` for the minimiser, `alpha`
      for the maximiser) with the running value. */
  function Step(s: Side, f: Frame, m: Move, child: Outcome): Frame
    requires Valid(s, f.best)
  {
    var b := Consider(s, f.best, m, child);
    var kids := f.kids[m := child.tree];
    if s.Min? then Frame(b, f.alpha, MinOf(f.beta, b.value), kids, f.seen + 1)
    else Frame(b, MaxOf(f.alpha, b.value), f.beta, kids, f.seen + 1)
  }

  /** The `break` test: `value <= alpha` for the minimiser, `value >= beta`
      for the maximiser. */
  predicate Cutoff(s: Side, f: Frame)
  {
    if s.Min? then LessEq(f.best.value, f.alpha) else LessEq(f.beta, f.best.value)
  }

  /** The move loop of a node at `depth`, over the moves not yet taken. The
      bound the node does not tighten is never changed. */
  function Scan(g: Rules, p: Position, depth: nat, ms: seq<Move>, f: Frame): (r: Frame)
    requires depth > 0
    requires Valid(p.side, f.best)
    ensures Valid(p.side, r.best)
    ensures ms != [] ==> Settled(r.best)
    ensures if p.side.Min? then r.alpha == f.alpha else r.beta == f.beta
    decreases depth, 0, |ms|
  {
    if ms == [] then f
    else
      var child := AlphaBeta(g, Next(g, p, ms[0]), depth - 1, f.alpha, f.beta);
      var f' := Step(p.side, f, ms[0], child);
      if Cutoff(p.side, f') then f' else Scan(g, p, depth, ms[1..], f')
  }

  /** How many of the node's moves the loop took before it stopped. */
  function Visited(g: Rules, p: Position, depth: nat, alpha: Value, beta: Value): nat
  {
    var ms := GenerateMoves(g, p);
    if depth == 0 || ms == [] then 0
    else Scan(g, p, depth, ms, Frame(Start(p.side), alpha, beta, map[], 0)).seen
  }

  /** At depth 0, and at a position with no moves, the search answers
      `(evaluate(board), [], {})` whatever the window. */
  lemma AlphaBetaLeaf(g: Rules, p: Position, depth: nat, alpha: Value, beta: Value)
    requires depth == 0 || GenerateMoves(g, p) == []
    ensures AlphaBeta(g, p, depth, alpha, beta) == Outcome(Score(g, p), [], Empty)
  {
  }

  // ---------------------------------------------------------------------
  // The leaf test as written.

  /** `alphabeta` as the source writes it. Its test `not (generateMoves(...))`
      is applied to a generator object, which is always truthy, so only
      `depth == 0` reaches the leaf, at this node and at every node below
      it. At a position without moves the loop leaves `bestMove = None` and
      `decode(None)` fails; a failure is `None` and ends the whole search. */
  function AlphaBetaAsWritten(g: Rules, p: Position, depth: nat, alpha: Value, beta: Value): Option<Outcome>
    decreases depth, 1
  {
    if depth == 0 then Some(Leaf(g, p))
    else
      match ScanAsWritten(g, p, depth, GenerateMoves(g, p), Frame(Start(p.side), alpha, beta, map[], 0))
      case None => None
      case Some(f) => if f.best.move.None? then None else Some(Finish(f.best, Node(f.kids)))
  }

  /** The move loop of the written search: a failing child fails the node. */
  function ScanAsWritten(g: Rules, p: Position, depth: nat, ms: seq<Move>, f: Frame): (r: Option<Frame>)
    requires depth > 0
    requires Valid(p.side, f.best)
    ensures r.Some? ==> Valid(p.side, r.value.best)
    decreases depth, 0, |ms|
  {
    if ms == [] then Some(f)
    else
      match AlphaBetaAsWritten(g, Next(g, p, ms[0]), depth - 1, f.alpha, f.beta)
      case None => None
      case Some(child) =>
        var f' := Step(p.side, f, ms[0], child);
        if Cutoff(p.side, f') then Some(f') else ScanAsWritten(g, p, depth, ms[1..], f')
  }

  /** Wherever the written search returns, it returns what the corrected
      search returns. */
  lemma {:induction false} AsWrittenAgrees(g: Rules, p: Position, depth: nat, alpha: Value, beta: Value)
    ensures AlphaBetaAsWritten(g, p, depth, alpha, beta).Some? ==>
              AlphaBetaAsWritten(g, p, depth, alpha, beta) == Some(AlphaBeta(g, p, depth, alpha, beta))
    decreases depth, 1
  {
    if depth > 0 {
      ScanAsWrittenAgrees(g, p, depth, GenerateMoves(g, p), Frame(Start(p.side), alpha, beta, map[], 0));
    }
  }

  /** Loop form of `AsWrittenAgrees`. */
  lemma {:induction false} ScanAsWrittenAgrees(g: Rules, p: Position, depth: nat, ms: seq<Move>, f: Frame)
    requires depth > 0
    requires Valid(p.side, f.best)
    ensures ScanAsWritten(g, p, depth, ms, f).Some? ==>
              ScanAsWritten(g, p, depth, ms, f) == Some(Scan(g, p, depth, ms, f))
    decreases depth, 0, |ms|
  {
    if ms != [] {
      AsWrittenAgrees(g, Next(g, p, ms[0]), depth - 1, f.alpha, f.beta);
      var child := AlphaBetaAsWritten(g, Next(g, p, ms[0]), depth - 1, f.alpha, f.beta);
      if child.Some? {
        var f' := Step(p.side, f, ms[0], child.value);
        if !Cutoff(p.side, f') {
          ScanAsWrittenAgrees(g, p, depth, ms[1..], f');
        }
      }
    }
  }

  /** The written test lets a position without moves through to the loop,
      which fails, while the corrected test makes it a leaf. The failure
      also ends the search from the parent whose first move leads there.
      Wherever the written search returns, the two agree. */
  lemma LeafTestFinding(g: Rules, p: Position, depth: nat, alpha: Value, beta: Value)
    ensures depth > 0 && GenerateMoves(g, p) == [] ==>
              AlphaBetaAsWritten(g, p, depth, alpha, beta) == None
              && AlphaBeta(g, p, depth, alpha, beta) == Leaf(g, p)
    ensures var ms := GenerateMoves(g, p);
      depth > 1 && ms != [] && GenerateMoves(g, Next(g, p, ms[0])) == [] ==>
        AlphaBetaAsWritten(g, p, depth, alpha, beta) == None
    ensures AlphaBetaAsWritten(g, p, depth, alpha, beta).Some? ==>
              AlphaBetaAsWritten(g, p, depth, alpha, beta) == Some(AlphaBeta(g, p, depth, alpha, beta))
  {
    AsWrittenAgrees(g, p, depth, alpha, beta);
    var ms := GenerateMoves(g, p);
    if depth > 1 && ms != [] && GenerateMoves(g, Next(g, p, ms[0])) == [] {
      var f := Frame(Start(p.side), alpha, beta, map[], 0);
      var q := Next(g, p, ms[0]);
      assert ScanAsWritten(g, q, depth - 1, [], Frame(Start(q.side), alpha, beta, map[], 0)).Some?;
      assert AlphaBetaAsWritten(g, q, depth - 1, f.alpha, f.beta) == None;
      assert ScanAsWritten(g, p, depth, ms, f) == None;
    }
  }

  // ---------------------------------------------------------------------
  // The tree is a prefix of the enumeration, cut right after the test.

  /** The loop takes a prefix of the moves, at least one of them, its tree
      holds exactly the moves of that prefix, and it stops before the end
      only when the running value failed the `break` test. It stops at the
      FIRST such move: after every shorter prefix of the moves it took, the
      loop ran through all of them and the test did not hold. */
  lemma {:induction false} ScanPrefix(g: Rules, p: Position, depth: nat, all: seq<Move>, f: Frame)
    requires depth > 0
    requires Valid(p.side, f.best)
    requires f.seen <= |all|
    requires f.kids.Keys == set m | m in all[..f.seen]
    ensures var r := Scan(g, p, depth, all[f.seen..], f);
      && f.seen <= r.seen <= |all|
      && (f.seen < |all| ==> f.seen < r.seen)
      && r.kids.Keys == (set m | m in all[..r.seen])
      && (r.seen < |all| ==> Cutoff(p.side, r))
      && forall j :: f.seen < j < r.seen ==>
           var q := Scan(g, p, depth, all[f.seen..j], f);
           q.seen == j && !Cutoff(p.side, q)
    decreases |all| - f.seen
  {
    if f.seen < |all| {
      var ms := all[f.seen..];
      var child := AlphaBeta(g, Next(g, p, ms[0]), depth - 1, f.alpha, f.beta);
      var f' := Step(p.side, f, ms[0], child);
      assert all[..f'.seen] == all[..f.seen] + [ms[0]];
      assert f'.kids.Keys == set m | m in all[..f'.seen];
      if !Cutoff(p.side, f') {
        assert all[f'.seen..] == ms[1..];
        ScanPrefix(g, p, depth, all, f');
        var r := Scan(g, p, depth, ms[1..], f');
        forall j | f.seen < j < r.seen
          ensures Scan(g, p, depth, all[f.seen..j], f).seen == j
          ensures !Cutoff(p.side, Scan(g, p, depth, all[f.seen..j], f))
        {
          var pre := all[f.seen..j];
          assert pre[0] == ms[0] && pre[1..] == all[f'.seen..j];
          if j == f'.seen {
            assert Scan(g, p, depth, pre, f) == Scan(g, p, depth, [], f');
          }
        }
      }
    }
  }

  /** At an inner node the tree's keys are the first `Visited` moves of the
      enumeration, at least one; the loop stopped early only when the value
      it returns is `<= alpha` (minimiser) or `>= beta` (maximiser), and no
      shorter prefix of the enumeration met that test. */
  lemma AlphaBetaPrefix(g: Rules, p: Position, depth: nat, alpha: Value, beta: Value)
    requires depth > 0 && GenerateMoves(g, p) != []
    ensures var ms, k, r := GenerateMoves(g, p), Visited(g, p, depth, alpha, beta), AlphaBeta(g, p, depth, alpha, beta);
      && 1 <= k <= |ms|
      && r.tree.kids.Keys == (set m | m in ms[..k])
      && (k < |ms| ==> if p.side.Min? then LessEq(Fin(r.value), alpha) else LessEq(beta, Fin(r.value)))
      && forall j :: 1 <= j < k ==> !Cutoff(p.side, Scan(g, p, depth, ms[..j], Frame(Start(p.side), alpha, beta, map[], 0)))
  {
    var ms := GenerateMoves(g, p);
    var f := Frame(Start(p.side), alpha, beta, map[], 0);
    assert ms[f.seen..] == ms;
    ScanPrefix(g, p, depth, ms, f);
    forall j | 1 <= j < Visited(g, p, depth, alpha, beta)
      ensures !Cutoff(p.side, Scan(g, p, depth, ms[..j], f))
    {
      assert ms[f.seen..j] == ms[..j];
    }
  }

  /** With the default window `(-inf, inf)` the root is never cut off: every
      enumerated move is in the tree. */
  lemma AlphaBetaRootFull(g: Rules, p: Position, depth: nat)
    requires depth > 0
    ensures Visited(g, p, depth, NegInf, PosInf) == |GenerateMoves(g, p)|
    ensures AlphaBeta(g, p, depth, NegInf, PosInf).tree.kids.Keys == (set m | m in GenerateMoves(g, p))
  {
    var ms := GenerateMoves(g, p);
    if ms != [] {
      AlphaBetaPrefix(g, p, depth, NegInf, PosInf);
      assert ms[..|ms|] == ms;
    }
  }

  // ---------------------------------------------------------------------
  // The tree is a subtree of the exhaustive search's tree.

  /** Every key of `t` is a key of `u`, and so on at every level. */
  predicate Within(t: MoveTree, u: MoveTree)
    decreases t
  {
    && t.kids.Keys <= u.kids.Keys
    && forall m :: m in t.kids ==> Within(t.kids[m], u.kids[m])
  }

  /** Loop-level form of the subtree property. */
  lemma {:induction false} ScanWithin(g: Rules, p: Position, depth: nat, ms: seq<Move>, f: Frame)
    requires depth > 0
    requires Valid(p.side, f.best)
    requires forall m :: m in f.kids ==> depth > 0 && Within(f.kids[m], Minimax.Child(g, p, depth, m).tree)
    ensures var r := Scan(g, p, depth, ms, f);
      && r.kids.Keys <= f.kids.Keys + (set m | m in ms)
      && forall m :: m in r.kids ==> Within(r.kids[m], Minimax.Child(g, p, depth, m).tree)
    decreases depth, 0, |ms|
  {
    if ms != [] {
      var child := AlphaBeta(g, Next(g, p, ms[0]), depth - 1, f.alpha, f.beta);
      AlphaBetaWithin(g, Next(g, p, ms[0]), depth - 1, f.alpha, f.beta);
      var f' := Step(p.side, f, ms[0], child);
      if !Cutoff(p.side, f') {
        ScanWithin(g, p, depth, ms[1..], f');
      }
    }
  }

  /** Whatever the window, the pruned tree is a subtree of the exhaustive
      search's tree at every level: pruned moves are absent, never added. */
  lemma {:induction false} AlphaBetaWithin(g: Rules, p: Position, depth: nat, alpha: Value, beta: Value)
    ensures Within(AlphaBeta(g, p, depth, alpha, beta).tree, Minimax.Minimax(g, p, depth).tree)
    decreases depth, 1
  {
    var ms := GenerateMoves(g, p);
    if depth > 0 && ms != [] {
      ScanWithin(g, p, depth, ms, Frame(Start(p.side), alpha, beta, map[], 0));
      Minimax.MinimaxTree(g, p, depth);
    }
  }

  // ---------------------------------------------------------------------
  // Same value and move list as the exhaustive search.

  /** How the pruned loop state relates to the exhaustive loop's running best
      `mb` after the same moves, for a node searched with window `(a, b)`:
      the window is the inherited one tightened by the running value and is
      still open; while the exhaustive value is on the far side of the
      node's own bound the pruned value is too, and once it lies inside the
      window both loops hold the same best. */
  predicate Tracks(s: Side, a: Value, b: Value, mb: Best, f: Frame)
  {
    && Valid(s, f.best)
    && Less(f.alpha, f.beta)
    && (if s.Min? then f.alpha == a && f.beta == MinOf(b, f.best.value)
        else f.beta == b && f.alpha == MaxOf(a, f.best.value))
    && (if s.Min? then
          if LessEq(b, mb.value) then LessEq(b, f.best.value) else Less(a, mb.value) && f.best == mb
        else
          if LessEq(mb.value, a) then LessEq(f.best.value, a) else Less(mb.value, b) && f.best == mb)
  }

  /** The fail-soft relation between a pruned value `x` and the exact value
      `v` for window `(a, b)`. */
  predicate Agrees(a: Value, b: Value, v: Value, x: Value)
  {
    && (LessEq(v, a) ==> LessEq(x, a))
    && (LessEq(b, v) ==> LessEq(b, x))
  }

  /** Loop-level form of the window theorem. */
  lemma {:induction false} ScanTracks(g: Rules, p: Position, depth: nat, a: Value, b: Value,
                                      ms: seq<Move>, w: Minimax.Sweep, f: Frame)
    requires depth > 0 && Less(a, b)
    requires Valid(p.side, w.best)
    requires Tracks(p.side, a, b, w.best, f)
    ensures var mb, fb := Minimax.Scan(g, p, depth, ms, w).best, Scan(g, p, depth, ms, f).best;
      && Agrees(a, b, mb.value, fb.value)
      && (Less(a, mb.value) && Less(mb.value, b) ==> fb == mb)
    decreases depth, 0, |ms|
  {
    if ms != [] {
      var m := ms[0];
      var c := Next(g, p, m);
      var exact := Minimax.Child(g, p, depth, m);
      var pruned := AlphaBeta(g, c, depth - 1, f.alpha, f.beta);
      AlphaBetaWindow(g, c, depth - 1, f.alpha, f.beta);
      var w' := Minimax.Sweep(Consider(p.side, w.best, m, exact), w.kids[m := exact.tree]);
      var f' := Step(p.side, f, m, pruned);
      if Cutoff(p.side, f') {
        Minimax.ScanBound(g, p, depth, ms[1..], w');
        CutoffAgrees(p.side, a, b, w.best, f, m, exact, pruned, Minimax.Scan(g, p, depth, ms[1..], w').best);
      } else {
        TracksStep(p.side, a, b, w.best, f, m, exact, pruned);
        ScanTracks(g, p, depth, a, b, ms[1..], w', f');
      }
    }
  }

  /** One loop step keeps `Tracks` when the pruned child relates to the exact
      child as the window theorem says and the step does not cut off. */
  lemma TracksStep(s: Side, a: Value, b: Value, mb: Best, f: Frame, m: Move, exact: Outcome, pruned: Outcome)
    requires Less(a, b) && Valid(s, mb)
    requires Tracks(s, a, b, mb, f)
    requires Agrees(f.alpha, f.beta, Fin(exact.value), Fin(pruned.value))
    requires Less(f.alpha, Fin(exact.value)) && Less(Fin(exact.value), f.beta) ==> pruned.value == exact.value && pruned.line == exact.line
    requires !Cutoff(s, Step(s, f, m, pruned))
    ensures Tracks(s, a, b, Consider(s, mb, m, exact), Step(s, f, m, pruned))
  {
  }

  /** When a step cuts off, the pruned value has crossed the bound the
      exhaustive loop also crosses, whatever the remaining moves add. */
  lemma CutoffAgrees(s: Side, a: Value, b: Value, mb: Best, f: Frame, m: Move, exact: Outcome, pruned: Outcome, last: Best)
    requires Less(a, b) && Valid(s, mb)
    requires Tracks(s, a, b, mb, f)
    requires Agrees(f.alpha, f.beta, Fin(exact.value), Fin(pruned.value))
    requires Less(f.alpha, Fin(exact.value)) && Less(Fin(exact.value), f.beta) ==> pruned.value == exact.value && pruned.line == exact.line
    requires Cutoff(s, Step(s, f, m, pruned))
    requires !Improves(s, Consider(s, mb, m, exact).value, last.value)
    ensures Agrees(a, b, last.value, Step(s, f, m, pruned).best.value)
    ensures !(Less(a, last.value) && Less(last.value, b))
  {
  }

  /** The window theorem: for an open window `(a, b)` the pruned value is
      `<= a` when the exact value is, `>= b` when the exact value is, and
      equals it, with the same move list, when it lies strictly inside. */
  lemma {:induction false} AlphaBetaWindow(g: Rules, p: Position, depth: nat, a: Value, b: Value)
    requires Less(a, b)
    ensures var v, r := Minimax.Minimax(g, p, depth), AlphaBeta(g, p, depth, a, b);
      && Agrees(a, b, Fin(v.value), Fin(r.value))
      && (Less(a, Fin(v.value)) && Less(Fin(v.value), b) ==> r.value == v.value && r.line == v.line)
    decreases depth, 1
  {
    var ms := GenerateMoves(g, p);
    if depth > 0 && ms != [] {
      var w := Minimax.Sweep(Start(p.side), map[]);
      var f := Frame(Start(p.side), a, b, map[], 0);
      ScanTracks(g, p, depth, a, b, ms, w, f);
    }
  }

  /** With the default window `(-inf, inf)` the pruned search returns the
      exhaustive search's value and move list. */
  lemma AlphaBetaIsMinimax(g: Rules, p: Position, depth: nat)
    ensures AlphaBeta(g, p, depth, NegInf, PosInf).value == Minimax.Minimax(g, p, depth).value
    ensures AlphaBeta(g, p, depth, NegInf, PosInf).line == Minimax.Minimax(g, p, depth).line
  {
    AlphaBetaWindow(g, p, depth, NegInf, PosInf);
  }
}
