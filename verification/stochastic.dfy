/**
 `stochastic(side, board, flags, depth, breadth, chooser)` and
 `stochastic_helper`: the first ply is searched exhaustively; below each
 first move, `breadth` continuations are drawn with the chooser and the mean
 of their final evaluations scores the move.

 The chooser is a deterministic oracle: `choose(k, ms)` is the move drawn
 from `ms` by the `k`-th chooser call of the search. The draw count is
 threaded through the search so that successive draws may differ, as
 successive `random.choice` calls do.
 */
module Stochastic {
  import opened Values
  import opened Game
  import opened Seqs

  type Chooser = (nat, seq<Move>) -> Move

  /** The chooser always returns a member of the non-empty list it is given. */
  ghost predicate ChoosesMember(choose: Chooser)
  {
    forall k, ms :: |ms| > 0 ==> choose(k, ms) in ms
  }

  /** The source's nested move list `[move, [move, [...]]]`, `[]` at the end. */
  datatype Path = Stop | Then(move: Move, rest: Path)

  /** The moves of a path, in order. */
  function Moves(path: Path): seq<Move>
  {
    if path.Stop? then [] else [path.move] + Moves(path.rest)
  }

  /** The tree of a single line of play: one key per level. */
  function PathTree(path: Path): MoveTree
  {
    if path.Stop? then Empty else Node(map[path.move := PathTree(path.rest)])
  }

  /** A sampled line `(value, moveList, moveTree)`, with the draw count after it. */
  datatype Walk = Walk(value: real, path: Path, tree: MoveTree, draws: nat)

  /** `stochastic_helper(side, board, flags, depth, chooser)`, started at draw
      `k`: draw one move per ply until `depth` plies are played (or no move
      is left) and evaluate the board reached. */
  function Helper(g: Rules, choose: Chooser, p: Position, depth: nat, k: nat): (r: Walk)
    ensures k <= r.draws <= k + depth
    ensures r.path == Stop <==> depth == 0 || GenerateMoves(g, p) == []
    decreases depth
  {
    if depth == 0 then Walk(Score(g, p), Stop, Empty, k)
    else
      var ms := GenerateMoves(g, p);
      if ms == [] then Walk(Score(g, p), Stop, Empty, k)
      else
        var m := choose(k, ms);
        var w := Helper(g, choose, Next(g, p, m), depth - 1, k + 1);
        Walk(w.value, Then(m, w.path), Node(map[m := w.tree]), w.draws)
  }

  /** The helper's line is complete, its value is the evaluation of the
      board the line reaches, its tree is that single line, and it made one
      draw per ply. */
  lemma {:induction false} HelperWalk(g: Rules, choose: Chooser, p: Position, depth: nat, k: nat)
    ensures var w := Helper(g, choose, p, depth, k); var line := Moves(w.path);
      && Complete(g, p, line, depth)
      && w.value == Score(g, Play(g, p, line))
      && w.tree == PathTree(w.path)
      && w.draws == k + |line|
    decreases depth
  {
    var ms := GenerateMoves(g, p);
    if depth > 0 && ms != [] {
      var m := choose(k, ms);
      var c := Next(g, p, m);
      HelperWalk(g, choose, c, depth - 1, k + 1);
      var w := Helper(g, choose, c, depth - 1, k + 1);
      assert Moves(Helper(g, choose, p, depth, k).path) == [m] + Moves(w.path);
      assert Play(g, p, [m] + Moves(w.path)) == Play(g, c, Moves(w.path));
    }
  }

  /** `path` is the chooser's draws from `p` starting at draw `k`: at every
      ply the position has moves and the path plays the `k`-th pick. */
  predicate Drawn(g: Rules, choose: Chooser, p: Position, path: Path, k: nat)
    decreases path
  {
    path.Then? ==>
      && GenerateMoves(g, p) != []
      && path.move == choose(k, GenerateMoves(g, p))
      && Drawn(g, choose, Next(g, p, path.move), path.rest, k + 1)
  }

  /** Every move of `path` is a move of the position it is played from. */
  ghost predicate Legal(g: Rules, p: Position, path: Path)
    decreases path
  {
    path.Then? ==> path.move in GenerateMoves(g, p) && Legal(g, Next(g, p, path.move), path.rest)
  }

  /** The helper's path is the chooser's draws, one per ply. */
  lemma {:induction false} HelperDrawn(g: Rules, choose: Chooser, p: Position, depth: nat, k: nat)
    ensures Drawn(g, choose, p, Helper(g, choose, p, depth, k).path, k)
    decreases depth
  {
    var ms := GenerateMoves(g, p);
    if depth > 0 && ms != [] {
      HelperDrawn(g, choose, Next(g, p, choose(k, ms)), depth - 1, k + 1);
    }
  }

  /** Draws of a chooser that returns members are moves of the game. */
  lemma {:induction false} DrawnLegal(g: Rules, choose: Chooser, p: Position, path: Path, k: nat)
    requires ChoosesMember(choose)
    requires Drawn(g, choose, p, path, k)
    ensures Legal(g, p, path)
    decreases path
  {
    if path.Then? {
      DrawnLegal(g, choose, Next(g, p, path.move), path.rest, k + 1);
    }
  }

  // ---------------------------------------------------------------------
  // The `breadth` samples of one first move.

  /** The loop variables `values`, `moveTree_sub` and `moveList` of one
      first move, with the draw count. */
  datatype Samples = Samples(values: seq<real>, kids: map<Move, MoveTree>, line: Path, draws: nat)

  /** One pass of `for i in range(breadth)` below first move `move`, whose
      position is `c`: draw a reply, play it, run the helper for `depth - 2`
      plies, append its value, record its tree under the reply, and set the
      move list to `[move, subMove, helperMoveList]`. */
  function Draw(g: Rules, choose: Chooser, move: Move, c: Position, depth: nat, s: Samples): (r: Samples)
    requires depth >= 2
    ensures |r.values| == |s.values| + 1
  {
    var ms := GenerateMoves(g, c);
    if ms == [] then Samples(s.values + [Score(g, c)], s.kids, Then(move, Stop), s.draws)
    else
      var sub := choose(s.draws, ms);
      var w := Helper(g, choose, Next(g, c, sub), depth - 2, s.draws + 1);
      Samples(s.values + [w.value], s.kids[sub := w.tree], Then(move, Then(sub, w.path)), w.draws)
  }

  /** `n` passes of the sampling loop. */
  function Sample(g: Rules, choose: Chooser, move: Move, c: Position, depth: nat, n: nat, s: Samples): (r: Samples)
    requires depth >= 2
    ensures |r.values| == |s.values| + n
    decreases n
  {
    if n == 0 then s
    else Sample(g, choose, move, c, depth, n - 1, Draw(g, choose, move, c, depth, s))
  }

  /** A sample is one more helper ply: its value, line and draw count are
      those of the helper run from `c` for `depth - 1` plies. */
  lemma DrawIsHelperPly(g: Rules, choose: Chooser, move: Move, c: Position, depth: nat, s: Samples)
    requires depth >= 2
    ensures var r, h := Draw(g, choose, move, c, depth, s), Helper(g, choose, c, depth - 1, s.draws);
      && r.values == s.values + [h.value]
      && r.line == Then(move, h.path)
      && r.draws == h.draws
  {
  }

  /** One sample's line is `move` followed by a complete line of
      `depth - 1` plies from `c`. */
  lemma DrawLine(g: Rules, choose: Chooser, move: Move, c: Position, depth: nat, s: Samples)
    requires depth >= 2
    ensures var r := Draw(g, choose, move, c, depth, s);
      r.line.Then? && r.line.move == move && Complete(g, c, Moves(r.line.rest), depth - 1)
  {
    DrawIsHelperPly(g, choose, move, c, depth, s);
    HelperWalk(g, choose, c, depth - 1, s.draws);
  }

  /** The values of `n` successive helper runs of `depth` plies from `c`:
      the first starts at draw `k`, each next one at the draw where the
      previous one stopped. */
  function Runs(g: Rules, choose: Chooser, c: Position, depth: nat, n: nat, k: nat): (r: seq<real>)
    ensures |r| == n
    decreases n
  {
    if n == 0 then []
    else
      var h := Helper(g, choose, c, depth, k);
      [h.value] + Runs(g, choose, c, depth, n - 1, h.draws)
  }

  /** The sampling loop appends the values of `n` successive helper runs of
      `depth - 1` plies from `c`, starting at the current draw. */
  lemma {:induction false} SampleRuns(g: Rules, choose: Chooser, move: Move, c: Position, depth: nat, n: nat, s: Samples)
    requires depth >= 2
    ensures Sample(g, choose, move, c, depth, n, s).values == s.values + Runs(g, choose, c, depth - 1, n, s.draws)
    decreases n
  {
    if n > 0 {
      var h := Helper(g, choose, c, depth - 1, s.draws);
      DrawIsHelperPly(g, choose, move, c, depth, s);
      SampleRuns(g, choose, move, c, depth, n - 1, Draw(g, choose, move, c, depth, s));
      assert s.values + [h.value] + Runs(g, choose, c, depth - 1, n - 1, h.draws)
          == s.values + ([h.value] + Runs(g, choose, c, depth - 1, n - 1, h.draws));
    }
  }

  /** The draw at which the last of `n` successive helper runs of `depth`
      plies from `c`, the first starting at draw `k`, starts. */
  function LastRun(g: Rules, choose: Chooser, c: Position, depth: nat, n: nat, k: nat): nat
    requires n > 0
    decreases n
  {
    if n == 1 then k else LastRun(g, choose, c, depth, n - 1, Helper(g, choose, c, depth, k).draws)
  }

  /** After at least one sample the move list is the first move followed by
      the line of the last helper run, and the draw count is where that run
      stopped. */
  lemma {:induction false} SampleLast(g: Rules, choose: Chooser, move: Move, c: Position, depth: nat, n: nat, s: Samples)
    requires depth >= 2
    ensures var r := Sample(g, choose, move, c, depth, n, s);
      n > 0 ==>
        var h := Helper(g, choose, c, depth - 1, LastRun(g, choose, c, depth - 1, n, s.draws));
        r.line == Then(move, h.path) && r.draws == h.draws
    decreases n
  {
    if n > 0 {
      DrawIsHelperPly(g, choose, move, c, depth, s);
      SampleLast(g, choose, move, c, depth, n - 1, Draw(g, choose, move, c, depth, s));
    }
  }

  /** The move list after sampling is `move` followed by a complete line of
      `depth - 1` plies from `c` (after no sample, the one it started with). */
  lemma SampleLine(g: Rules, choose: Chooser, move: Move, c: Position, depth: nat, n: nat, s: Samples)
    requires depth >= 2
    requires s.line.Then? ==> s.line.move == move && Complete(g, c, Moves(s.line.rest), depth - 1)
    ensures var r := Sample(g, choose, move, c, depth, n, s);
      && (r.line.Then? ==> r.line.move == move && Complete(g, c, Moves(r.line.rest), depth - 1))
      && (n > 0 ==> r.line.Then?)
  {
    if n > 0 {
      SampleLast(g, choose, move, c, depth, n, s);
      HelperWalk(g, choose, c, depth - 1, LastRun(g, choose, c, depth - 1, n, s.draws));
    }
  }

  /** One sample adds at most one key to the move's subtree, the drawn
      reply, and keeps the earlier ones; the reply with the subtree recorded
      under it is the tree of the helper run of `depth - 1` plies from `c`. */
  lemma DrawKeys(g: Rules, choose: Chooser, move: Move, c: Position, depth: nat, s: Samples)
    requires depth >= 2
    ensures var r, ms := Draw(g, choose, move, c, depth, s), GenerateMoves(g, c);
      && s.kids.Keys <= r.kids.Keys
      && (ms == [] ==> r.kids == s.kids)
      && (ms != [] ==>
           var sub := choose(s.draws, ms);
           && r.kids.Keys == s.kids.Keys + {sub}
           && Node(map[sub := r.kids[sub]]) == Helper(g, choose, c, depth - 1, s.draws).tree)
  {
    var ms := GenerateMoves(g, c);
    if ms != [] {
      var sub := choose(s.draws, ms);
      var w := Helper(g, choose, Next(g, c, sub), depth - 2, s.draws + 1);
      assert Helper(g, choose, c, depth - 1, s.draws).tree == Node(map[sub := w.tree]);
    }
  }

  /** Each sample adds at most one key to the move's subtree. */
  lemma {:induction false} SampleKeys(g: Rules, choose: Chooser, move: Move, c: Position, depth: nat, n: nat, s: Samples)
    requires depth >= 2
    ensures |Sample(g, choose, move, c, depth, n, s).kids.Keys| <= |s.kids.Keys| + n
    decreases n
  {
    if n > 0 {
      DrawKeys(g, choose, move, c, depth, s);
      SampleKeys(g, choose, move, c, depth, n - 1, Draw(g, choose, move, c, depth, s));
    }
  }

  // ---------------------------------------------------------------------
  // Means.

  function Sum(xs: seq<real>): real
  {
    if xs == [] then 0.0 else xs[0] + Sum(xs[1..])
  }

  /** `sum(values)/len(values)`. */
  function Mean(xs: seq<real>): real
    requires |xs| > 0
  {
    Sum(xs) / (|xs| as real)
  }

  /** Bounds on every element bound the sum. */
  lemma {:induction false} SumBounds(xs: seq<real>, lo: real, hi: real)
    requires forall i :: 0 <= i < |xs| ==> lo <= xs[i] <= hi
    ensures (|xs| as real) * lo <= Sum(xs) <= (|xs| as real) * hi
  {
    if xs != [] {
      SumBounds(xs[1..], lo, hi);
      assert (|xs| as real) * lo == lo + (|xs[1..]| as real) * lo;
      assert (|xs| as real) * hi == hi + (|xs[1..]| as real) * hi;
    }
  }

  /** The mean of the samples lies between their smallest and largest value. */
  lemma MeanBetween(xs: seq<real>, lo: real, hi: real)
    requires |xs| > 0
    requires forall i :: 0 <= i < |xs| ==> lo <= xs[i] <= hi
    ensures lo <= Mean(xs) <= hi
  {
    SumBounds(xs, lo, hi);
    var n := |xs| as real;
    assert Mean(xs) * n == Sum(xs);
  }

  /** The smallest value of a non-empty sequence. */
  function Least(xs: seq<real>): (r: real)
    requires |xs| > 0
    ensures forall i :: 0 <= i < |xs| ==> r <= xs[i]
    ensures exists i :: 0 <= i < |xs| && r == xs[i]
  {
    if |xs| == 1 then xs[0]
    else
      var t := Least(xs[1..]);
      if xs[0] <= t then xs[0] else t
  }

  /** The largest value of a non-empty sequence. */
  function Greatest(xs: seq<real>): (r: real)
    requires |xs| > 0
    ensures forall i :: 0 <= i < |xs| ==> xs[i] <= r
    ensures exists i :: 0 <= i < |xs| && r == xs[i]
  {
    if |xs| == 1 then xs[0]
    else
      var t := Greatest(xs[1..]);
      if t <= xs[0] then xs[0] else t
  }

  /** The mean lies between the smallest and the largest sample. */
  lemma MeanWithin(xs: seq<real>)
    requires |xs| > 0
    ensures Least(xs) <= Mean(xs) <= Greatest(xs)
  {
    MeanBetween(xs, Least(xs), Greatest(xs));
  }

  // ---------------------------------------------------------------------
  // The exhaustive first ply.

  /** The `breadth` samples of first move `m` from `p`, starting at draw `k`. */
  function Trial(g: Rules, choose: Chooser, p: Position, depth: nat, breadth: nat, m: Move, k: nat): (r: Samples)
    requires depth >= 2 && breadth >= 1
    ensures |r.values| == breadth
  {
    Sample(g, choose, m, Next(g, p, m), depth, breadth, Samples([], map[], Stop, k))
  }

  /** The move list of a trial is `m` followed by a complete line of
      `depth - 1` plies, so it is a complete line of `depth` plies from `p`. */
  lemma TrialLine(g: Rules, choose: Chooser, p: Position, depth: nat, breadth: nat, m: Move, k: nat)
    requires depth >= 2 && breadth >= 1
    ensures var s := Trial(g, choose, p, depth, breadth, m, k);
      s.line.Then? && s.line.move == m && Complete(g, p, Moves(s.line), depth)
  {
    var c := Next(g, p, m);
    SampleLine(g, choose, m, c, depth, breadth, Samples([], map[], Stop, k));
    var s := Trial(g, choose, p, depth, breadth, m, k);
    assert Play(g, p, Moves(s.line)) == Play(g, c, Moves(s.line.rest));
  }

  /** The loop variables `best_val`, `moveLists` and `moveTree`, with the
      draw count and the score (`mean_val`) of every first move taken. */
  datatype Choice = Choice(best: Value, line: Path, kids: map<Move, MoveTree>, scores: seq<real>, draws: nat)

  /** The end of one pass of the root loop for first move `m` with samples
      `s`: record the subtree, score the move by the mean of its samples,
      take `min`/`max` with the running best, and adopt the samples' move
      list only when the running best changed. */
  function Pass(side: Side, c: Choice, m: Move, s: Samples): (r: Choice)
    requires |s.values| > 0
    ensures |r.scores| == |c.scores| + 1
    ensures r.kids.Keys == c.kids.Keys + {m}
    ensures r.kids[m] == Node(s.kids)
    ensures forall m' :: m' in c.kids && m' != m ==> r.kids[m'] == c.kids[m']
  {
    var mean := Mean(s.values);
    var best := if side.Min? then MinOf(Fin(mean), c.best) else MaxOf(Fin(mean), c.best);
    var line := if c.best != best then s.line else c.line;
    Choice(best, line, c.kids[m := Node(s.kids)], c.scores + [mean], s.draws)
  }

  /** `for move in generateMoves(side, board, flags)` at the root. */
  function Root(g: Rules, choose: Chooser, p: Position, depth: nat, breadth: nat, ms: seq<Move>, c: Choice): (r: Choice)
    requires ms != [] ==> depth >= 2 && breadth >= 1
    ensures |r.scores| == |c.scores| + |ms|
    ensures r.kids.Keys == c.kids.Keys + (set m | m in ms)
    decreases |ms|
  {
    if ms == [] then c
    else
      var r := Root(g, choose, p, depth, breadth, ms[1..], Pass(p.side, c, ms[0], Trial(g, choose, p, depth, breadth, ms[0], c.draws)));
      assert (set m | m in ms) == {ms[0]} + (set m | m in ms[1..]);
      r
  }

  /** The result `(best_val, moveLists, moveTree)`. */
  datatype Result = Result(value: Value, line: Path, tree: MoveTree)

  /** The root loop's starting state. */
  function Initial(side: Side): Choice
  {
    Choice(Worst(side), Stop, map[], [], 0)
  }

  /** The chooser's draw count once the root loop has sampled the first
      moves `done`, counted from 0: the samples of each first move start at
      the draw where those of the previous first move stopped. */
  function DrawsBefore(g: Rules, choose: Chooser, p: Position, depth: nat, breadth: nat, done: seq<Move>): nat
    requires done != [] ==> depth >= 2 && breadth >= 1
    decreases |done|
  {
    if done == [] then 0
    else
      var n := |done| - 1;
      Trial(g, choose, p, depth, breadth, done[n], DrawsBefore(g, choose, p, depth, breadth, done[..n])).draws
  }

  /** Sampling one more first move `m` continues from the draw count of the
      earlier ones; the earlier prefixes are unchanged. */
  lemma DrawsSnoc(g: Rules, choose: Chooser, p: Position, depth: nat, breadth: nat, done: seq<Move>, m: Move)
    requires depth >= 2 && breadth >= 1
    ensures DrawsBefore(g, choose, p, depth, breadth, done + [m])
            == Trial(g, choose, p, depth, breadth, m, DrawsBefore(g, choose, p, depth, breadth, done)).draws
    ensures forall j :: 0 <= j <= |done| ==> (done + [m])[..j] == done[..j]
  {
    assert (done + [m])[..|done|] == done;
  }

  /** `stochastic(side, board, flags, depth, breadth, chooser)`, the chooser's
      draws counted from 0. */
  function Stochastic(g: Rules, choose: Chooser, p: Position, depth: nat, breadth: nat): (r: Result)
    requires GenerateMoves(g, p) != [] ==> depth >= 2 && breadth >= 1
    ensures r.tree.kids.Keys == (set m | m in GenerateMoves(g, p))
    ensures GenerateMoves(g, p) == [] ==> r == Result(Worst(p.side), Stop, Empty)
  {
    var c := Root(g, choose, p, depth, breadth, GenerateMoves(g, p), Initial(p.side));
    Result(c.best, c.line, Node(c.kids))
  }

  /** The scores (`mean_val`) of the first moves, in enumeration order. */
  function Scores(g: Rules, choose: Chooser, p: Position, depth: nat, breadth: nat): seq<real>
    requires GenerateMoves(g, p) != [] ==> depth >= 2 && breadth >= 1
  {
    Root(g, choose, p, depth, breadth, GenerateMoves(g, p), Initial(p.side)).scores
  }

  /** The root loop's state after the first moves `done`: at the start, the
      infinite start value and `[]`; afterwards the running best is finite,
      no score beats it, it was adopted from the FIRST move whose score
      reached it (every earlier score is strictly worse), and the move list
      is the one that move's samples left, a complete line. The draw count
      is the one the samples of `done` leave, and the samples of the first
      move reaching the best started where those of the moves before it
      stopped. */
  ghost predicate Chosen(g: Rules, choose: Chooser, p: Position, depth: nat, breadth: nat, done: seq<Move>, c: Choice)
  {
    && |c.scores| == |done|
    && (done == [] ==> c.best == Worst(p.side) && c.line == Stop && c.draws == 0)
    && (done != [] ==>
         && depth >= 2 && breadth >= 1
         && c.draws == DrawsBefore(g, choose, p, depth, breadth, done)
         && c.best.Fin?
         && Complete(g, p, Moves(c.line), depth)
         && (forall j :: 0 <= j < |done| ==> !Improves(p.side, Fin(c.scores[j]), c.best))
         && exists k :: FirstReaching(g, choose, p, depth, breadth, done, c, k))
  }

  /** `done[k]` is the first of the moves `done` whose score reached the
      running best of `c`: its score is the best, every earlier score is
      strictly worse, and the move list of `c` is the one that move's
      samples left, drawn from where the samples of `done[..k]` stopped. */
  ghost predicate FirstReaching(g: Rules, choose: Chooser, p: Position, depth: nat, breadth: nat, done: seq<Move>, c: Choice, k: int)
  {
    && depth >= 2 && breadth >= 1
    && 0 <= k < |done| == |c.scores|
    && c.best == Fin(c.scores[k])
    && (forall j :: 0 <= j < k ==> Improves(p.side, c.best, Fin(c.scores[j])))
    && c.line.Then? && c.line.move == done[k]
    && c.line == Trial(g, choose, p, depth, breadth, done[k], DrawsBefore(g, choose, p, depth, breadth, done[..k])).line
  }

  /** `Chosen` after a non-empty `done`, assembled from its parts. */
  lemma ChosenFrom(g: Rules, choose: Chooser, p: Position, depth: nat, breadth: nat, done: seq<Move>, c: Choice, k: int)
    requires done != []
    requires FirstReaching(g, choose, p, depth, breadth, done, c, k)
    requires c.draws == DrawsBefore(g, choose, p, depth, breadth, done)
    requires Complete(g, p, Moves(c.line), depth)
    requires forall j :: 0 <= j < |done| ==> !Improves(p.side, Fin(c.scores[j]), c.best)
    ensures Chosen(g, choose, p, depth, breadth, done, c)
  {
  }

  /** A later move whose score is appended without changing the best or the
      move list leaves the first move reaching the best unchanged. */
  lemma KeepFirst(g: Rules, choose: Chooser, p: Position, depth: nat, breadth: nat,
                  done: seq<Move>, c: Choice, m: Move, x: real, c': Choice, k: int)
    requires FirstReaching(g, choose, p, depth, breadth, done, c, k)
    requires c'.best == c.best && c'.line == c.line && c'.scores == c.scores + [x]
    ensures FirstReaching(g, choose, p, depth, breadth, done + [m], c', k)
  {
    DrawsSnoc(g, choose, p, depth, breadth, done, m);
    forall j | 0 <= j < k
      ensures Improves(p.side, c'.best, Fin(c'.scores[j]))
    {
      assert c'.scores[j] == c.scores[j];
    }
  }

  /** A move whose score is strictly better than every earlier score and
      whose samples' move list is adopted is the first one reaching the best. */
  lemma AdoptFirst(g: Rules, choose: Chooser, p: Position, depth: nat, breadth: nat,
                   done: seq<Move>, m: Move, c': Choice)
    requires depth >= 2 && breadth >= 1
    requires |c'.scores| == |done| + 1
    requires c'.best == Fin(c'.scores[|done|])
    requires forall j :: 0 <= j < |done| ==> Improves(p.side, c'.best, Fin(c'.scores[j]))
    requires c'.line == Trial(g, choose, p, depth, breadth, m, DrawsBefore(g, choose, p, depth, breadth, done)).line
    ensures FirstReaching(g, choose, p, depth, breadth, done + [m], c', |done|)
  {
    TrialLine(g, choose, p, depth, breadth, m, DrawsBefore(g, choose, p, depth, breadth, done));
    DrawsSnoc(g, choose, p, depth, breadth, done, m);
  }

  /** `min(mean, best)` differs from `best` exactly when the mean is
      strictly better, and likewise for `max`. */
  lemma Adopt(s: Side, mean: real, best: Value)
    ensures var b := if s.Min? then MinOf(Fin(mean), best) else MaxOf(Fin(mean), best);
      && (b != best <==> Improves(s, Fin(mean), best))
      && (b != best ==> b == Fin(mean))
  {
  }

  /** A pass scores the move by the mean of its samples; the running best
      and the move list change exactly when that mean is strictly better,
      and then become the mean and the samples' move list. */
  lemma PassAdopts(side: Side, c: Choice, m: Move, s: Samples)
    requires |s.values| > 0
    ensures var r, mean := Pass(side, c, m, s), Mean(s.values);
      && r.scores == c.scores + [mean]
      && r.draws == s.draws
      && (Improves(side, Fin(mean), c.best) ==> r.best == Fin(mean) && r.line == s.line)
      && (!Improves(side, Fin(mean), c.best) ==> r.best == c.best && r.line == c.line)
  {
    Adopt(side, Mean(s.values), c.best);
  }

  /** A pass whose mean is strictly better adopts the move: the best becomes
      that mean, the move list the one its samples left, and `Chosen` holds
      with the new move as the first one reaching the best. */
  lemma ChosenAdopt(g: Rules, choose: Chooser, p: Position, depth: nat, breadth: nat, done: seq<Move>, c: Choice, m: Move)
    requires depth >= 2 && breadth >= 1
    requires Chosen(g, choose, p, depth, breadth, done, c)
    requires Improves(p.side, Fin(Mean(Trial(g, choose, p, depth, breadth, m, c.draws).values)), c.best)
    ensures var s := Trial(g, choose, p, depth, breadth, m, c.draws);
      var r := Pass(p.side, c, m, s);
      && r.best == Fin(Mean(s.values))
      && r.line == s.line
      && Chosen(g, choose, p, depth, breadth, done + [m], r)
  {
    var s := Trial(g, choose, p, depth, breadth, m, c.draws);
    TrialLine(g, choose, p, depth, breadth, m, c.draws);
    PassAdopts(p.side, c, m, s);
    DrawsSnoc(g, choose, p, depth, breadth, done, m);
    var c' := Pass(p.side, c, m, s);
    forall j | 0 <= j < |done|
      ensures Improves(p.side, c'.best, Fin(c'.scores[j]))
    {
      assert c'.scores[j] == c.scores[j];
    }
    AdoptFirst(g, choose, p, depth, breadth, done, m, c');
    forall j | 0 <= j < |done| + 1
      ensures !Improves(p.side, Fin(c'.scores[j]), c'.best)
    {
    }
    ChosenFrom(g, choose, p, depth, breadth, done + [m], c', |done|);
  }

  /** A pass whose mean is not strictly better keeps the best, its move and
      its line. */
  lemma ChosenKeep(g: Rules, choose: Chooser, p: Position, depth: nat, breadth: nat, done: seq<Move>, c: Choice, m: Move)
    requires depth >= 2 && breadth >= 1
    requires Chosen(g, choose, p, depth, breadth, done, c)
    requires !Improves(p.side, Fin(Mean(Trial(g, choose, p, depth, breadth, m, c.draws).values)), c.best)
    ensures var r := Pass(p.side, c, m, Trial(g, choose, p, depth, breadth, m, c.draws));
      && r.best == c.best
      && r.line == c.line
      && Chosen(g, choose, p, depth, breadth, done + [m], r)
  {
    var s := Trial(g, choose, p, depth, breadth, m, c.draws);
    PassAdopts(p.side, c, m, s);
    DrawsSnoc(g, choose, p, depth, breadth, done, m);
    var c', done' := Pass(p.side, c, m, s), done + [m];
    var k :| FirstReaching(g, choose, p, depth, breadth, done, c, k);
    KeepFirst(g, choose, p, depth, breadth, done, c, m, Mean(s.values), c', k);
    forall j | 0 <= j < |done'|
      ensures !Improves(p.side, Fin(c'.scores[j]), c'.best)
    {
      if j < |done| {
        assert c'.scores[j] == c.scores[j];
      }
    }
  }

  /** One pass of the root loop, for first move `m` with its samples drawn
      from the current draw count, keeps `Chosen`. */
  lemma ChosenPass(g: Rules, choose: Chooser, p: Position, depth: nat, breadth: nat, done: seq<Move>, c: Choice, m: Move)
    requires depth >= 2 && breadth >= 1
    requires Chosen(g, choose, p, depth, breadth, done, c)
    ensures Chosen(g, choose, p, depth, breadth, done + [m], Pass(p.side, c, m, Trial(g, choose, p, depth, breadth, m, c.draws)))
  {
    if Improves(p.side, Fin(Mean(Trial(g, choose, p, depth, breadth, m, c.draws).values)), c.best) {
      ChosenAdopt(g, choose, p, depth, breadth, done, c, m);
    } else {
      ChosenKeep(g, choose, p, depth, breadth, done, c, m);
    }
  }

  /** The root loop keeps `Chosen`. */
  lemma {:induction false} RootChosen(g: Rules, choose: Chooser, p: Position, depth: nat, breadth: nat,
                                      done: seq<Move>, ms: seq<Move>, c: Choice)
    requires ms != [] ==> depth >= 2 && breadth >= 1
    requires Chosen(g, choose, p, depth, breadth, done, c)
    ensures Chosen(g, choose, p, depth, breadth, done + ms, Root(g, choose, p, depth, breadth, ms, c))
    decreases |ms|
  {
    if ms == [] {
      assert done + ms == done;
    } else {
      var s := Trial(g, choose, p, depth, breadth, ms[0], c.draws);
      ChosenPass(g, choose, p, depth, breadth, done, c, ms[0]);
      RootChosen(g, choose, p, depth, breadth, done + [ms[0]], ms[1..], Pass(p.side, c, ms[0], s));
      Regroup(done, ms);
    }
  }

  /** `Chosen` in terms of plain comparisons of the scores: the best is the
      smallest (or largest) score, and the line is the one left by the first
      move reaching it. */
  lemma ChosenExtreme(g: Rules, choose: Chooser, p: Position, depth: nat, breadth: nat, done: seq<Move>, c: Choice)
    requires done != [] && Chosen(g, choose, p, depth, breadth, done, c)
    ensures depth >= 2 && breadth >= 1
    ensures c.best.Fin? && |c.scores| == |done|
    ensures forall j :: 0 <= j < |done| ==> if p.side.Min? then c.best.v <= c.scores[j] else c.best.v >= c.scores[j]
    ensures exists k :: 0 <= k < |done| && c.best.v == c.scores[k] && c.line.Then? && c.line.move == done[k]
              && (forall j :: 0 <= j < k ==> if p.side.Min? then c.scores[j] > c.best.v else c.scores[j] < c.best.v)
              && c.line == Trial(g, choose, p, depth, breadth, done[k], DrawsBefore(g, choose, p, depth, breadth, done[..k])).line
  {
    var k :| FirstReaching(g, choose, p, depth, breadth, done, c, k);
    assert forall j :: 0 <= j < k ==> if p.side.Min? then c.scores[j] > c.best.v else c.scores[j] < c.best.v;
  }

  /** The result and the scores are those the root loop leaves. */
  lemma StochasticRoot(g: Rules, choose: Chooser, p: Position, depth: nat, breadth: nat)
    requires GenerateMoves(g, p) != [] ==> depth >= 2 && breadth >= 1
    ensures var c := Root(g, choose, p, depth, breadth, GenerateMoves(g, p), Initial(p.side));
      && Stochastic(g, choose, p, depth, breadth) == Result(c.best, c.line, Node(c.kids))
      && Scores(g, choose, p, depth, breadth) == c.scores
  {
  }

  /** The root loop over all first moves ends with `Chosen`. */
  lemma AllChosen(g: Rules, choose: Chooser, p: Position, depth: nat, breadth: nat)
    requires GenerateMoves(g, p) != [] ==> depth >= 2 && breadth >= 1
    ensures var ms := GenerateMoves(g, p);
      Chosen(g, choose, p, depth, breadth, ms, Root(g, choose, p, depth, breadth, ms, Initial(p.side)))
  {
    var ms := GenerateMoves(g, p);
    RootChosen(g, choose, p, depth, breadth, [], ms, Initial(p.side));
    assert [] + ms == ms;
  }

  /** The root loop over all first moves ends with `Chosen`, stated as
      plain comparisons of the scores. */
  lemma RootExtreme(g: Rules, choose: Chooser, p: Position, depth: nat, breadth: nat)
    requires GenerateMoves(g, p) != [] && depth >= 2 && breadth >= 1
    ensures var ms, c := GenerateMoves(g, p), Root(g, choose, p, depth, breadth, GenerateMoves(g, p), Initial(p.side));
      && c.best.Fin?
      && Complete(g, p, Moves(c.line), depth)
      && (forall j :: 0 <= j < |ms| ==> if p.side.Min? then c.best.v <= c.scores[j] else c.best.v >= c.scores[j])
      && exists k :: 0 <= k < |ms| && c.best.v == c.scores[k] && c.line.Then? && c.line.move == ms[k]
           && (forall j :: 0 <= j < k ==> if p.side.Min? then c.scores[j] > c.best.v else c.scores[j] < c.best.v)
           && c.line == Trial(g, choose, p, depth, breadth, ms[k], DrawsBefore(g, choose, p, depth, breadth, ms[..k])).line
  {
    AllChosen(g, choose, p, depth, breadth);
    ChosenExtreme(g, choose, p, depth, breadth, GenerateMoves(g, p), Root(g, choose, p, depth, breadth, GenerateMoves(g, p), Initial(p.side)));
  }

  /** With no first move the search answers `(±inf, [], {})`, whatever the
      depth and breadth. With first moves, the minimiser returns the
      smallest score and the maximiser the largest; the move list is the one
      left by the samples of the FIRST move whose score reached it (later
      equal scores do not replace it), drawn from where the samples of the
      moves before it stopped, and is a complete line. */
  lemma StochasticChoice(g: Rules, choose: Chooser, p: Position, depth: nat, breadth: nat)
    requires GenerateMoves(g, p) != [] ==> depth >= 2 && breadth >= 1
    ensures var ms, sc, r := GenerateMoves(g, p), Scores(g, choose, p, depth, breadth), Stochastic(g, choose, p, depth, breadth);
      && |sc| == |ms|
      && (ms == [] ==> r == Result(Worst(p.side), Stop, Empty))
      && (ms != [] ==>
           && r.value.Fin?
           && Complete(g, p, Moves(r.line), depth)
           && (forall j :: 0 <= j < |ms| ==> if p.side.Min? then r.value.v <= sc[j] else r.value.v >= sc[j])
           && exists k :: 0 <= k < |ms| && r.value.v == sc[k] && r.line.Then? && r.line.move == ms[k]
                && (forall j :: 0 <= j < k ==> if p.side.Min? then sc[j] > r.value.v else sc[j] < r.value.v)
                && r.line == Trial(g, choose, p, depth, breadth, ms[k], DrawsBefore(g, choose, p, depth, breadth, ms[..k])).line)
  {
    StochasticRoot(g, choose, p, depth, breadth);
    if GenerateMoves(g, p) != [] {
      RootExtreme(g, choose, p, depth, breadth);
    }
  }

  /** Every subtree has at most `breadth` keys. */
  ghost predicate Narrow(kids: map<Move, MoveTree>, breadth: nat)
  {
    forall m :: m in kids ==> |kids[m].kids.Keys| <= breadth
  }

  /** Adding a subtree of at most `breadth` keys keeps `Narrow`. */
  lemma NarrowPass(side: Side, c: Choice, m: Move, s: Samples, breadth: nat)
    requires |s.values| > 0 && |s.kids.Keys| <= breadth
    requires Narrow(c.kids, breadth)
    ensures Narrow(Pass(side, c, m, s).kids, breadth)
  {
  }

  /** Every pass of the root loop gives its first move a subtree of at most
      `breadth` keys. */
  lemma {:induction false} RootKids(g: Rules, choose: Chooser, p: Position, depth: nat, breadth: nat, ms: seq<Move>, c: Choice)
    requires ms != [] ==> depth >= 2 && breadth >= 1
    requires Narrow(c.kids, breadth)
    ensures Narrow(Root(g, choose, p, depth, breadth, ms, c).kids, breadth)
    decreases |ms|
  {
    if ms != [] {
      var s := Trial(g, choose, p, depth, breadth, ms[0], c.draws);
      SampleKeys(g, choose, ms[0], Next(g, p, ms[0]), depth, breadth, Samples([], map[], Stop, c.draws));
      NarrowPass(p.side, c, ms[0], s, breadth);
      RootKids(g, choose, p, depth, breadth, ms[1..], Pass(p.side, c, ms[0], s));
    }
  }

  /** The tree has one key per first move, and each first move's subtree has
      at most `breadth` keys. */
  lemma StochasticTree(g: Rules, choose: Chooser, p: Position, depth: nat, breadth: nat)
    requires GenerateMoves(g, p) != [] ==> depth >= 2 && breadth >= 1
    ensures var t := Stochastic(g, choose, p, depth, breadth).tree;
      && t.kids.Keys == (set m | m in GenerateMoves(g, p))
      && Narrow(t.kids, breadth)
  {
    RootKids(g, choose, p, depth, breadth, GenerateMoves(g, p), Initial(p.side));
  }

  /** `x` is the mean of `n > 0` successive helper runs of `depth` plies
      from `c` starting at draw `k`, and so lies between the smallest and the
      largest of their values. */
  predicate Sampled(g: Rules, choose: Chooser, c: Position, depth: nat, n: nat, k: nat, x: real)
  {
    n > 0 &&
    var xs := Runs(g, choose, c, depth, n, k);
    x == Mean(xs) && Least(xs) <= x <= Greatest(xs)
  }

  /** The score of the `j`-th first move `done[j]` is the mean of `breadth`
      successive helper runs of `depth - 1` plies from the position after
      `done[j]`, the first starting at the draw where the samples of the
      moves before it stopped, and lies between their smallest and largest
      value. */
  ghost predicate Averaged(g: Rules, choose: Chooser, p: Position, depth: nat, breadth: nat, done: seq<Move>, scores: seq<real>)
  {
    && |scores| == |done|
    && (done != [] ==> depth >= 2 && breadth >= 1)
    && forall j :: 0 <= j < |done| ==>
         Sampled(g, choose, Next(g, p, done[j]), depth - 1, breadth,
                 DrawsBefore(g, choose, p, depth, breadth, done[..j]), scores[j])
  }

  /** The samples of a first move, drawn from draw `k`, score it by a
      sampled mean. */
  lemma TrialSampled(g: Rules, choose: Chooser, p: Position, depth: nat, breadth: nat, m: Move, k: nat)
    requires depth >= 2 && breadth >= 1
    ensures Sampled(g, choose, Next(g, p, m), depth - 1, breadth, k, Mean(Trial(g, choose, p, depth, breadth, m, k).values))
  {
    var c := Next(g, p, m);
    var xs := Runs(g, choose, c, depth - 1, breadth, k);
    SampleRuns(g, choose, m, c, depth, breadth, Samples([], map[], Stop, k));
    assert Trial(g, choose, p, depth, breadth, m, k).values == xs;
    MeanWithin(xs);
  }

  /** One pass of the root loop, for first move `m` with its samples drawn
      from the current draw count, keeps `Averaged` and the draw count. */
  lemma ScoresPass(g: Rules, choose: Chooser, p: Position, depth: nat, breadth: nat, done: seq<Move>, c: Choice, m: Move)
    requires depth >= 2 && breadth >= 1
    requires c.draws == DrawsBefore(g, choose, p, depth, breadth, done)
    requires Averaged(g, choose, p, depth, breadth, done, c.scores)
    ensures var r := Pass(p.side, c, m, Trial(g, choose, p, depth, breadth, m, c.draws));
      && r.draws == DrawsBefore(g, choose, p, depth, breadth, done + [m])
      && Averaged(g, choose, p, depth, breadth, done + [m], r.scores)
  {
    var s := Trial(g, choose, p, depth, breadth, m, c.draws);
    TrialSampled(g, choose, p, depth, breadth, m, c.draws);
    PassAdopts(p.side, c, m, s);
    DrawsSnoc(g, choose, p, depth, breadth, done, m);
    var r, done' := Pass(p.side, c, m, s), done + [m];
    forall j | 0 <= j < |done'|
      ensures Sampled(g, choose, Next(g, p, done'[j]), depth - 1, breadth,
                      DrawsBefore(g, choose, p, depth, breadth, done'[..j]), r.scores[j])
    {
      if j < |done| {
        assert done'[j] == done[j] && r.scores[j] == c.scores[j];
      }
    }
  }

  /** Every pass of the root loop scores its first move by a sampled mean. */
  lemma {:induction false} RootScores(g: Rules, choose: Chooser, p: Position, depth: nat, breadth: nat,
                                      done: seq<Move>, ms: seq<Move>, c: Choice)
    requires ms != [] ==> depth >= 2 && breadth >= 1
    requires Averaged(g, choose, p, depth, breadth, done, c.scores)
    requires c.draws == DrawsBefore(g, choose, p, depth, breadth, done)
    ensures Averaged(g, choose, p, depth, breadth, done + ms, Root(g, choose, p, depth, breadth, ms, c).scores)
    decreases |ms|
  {
    if ms == [] {
      assert done + ms == done;
    } else {
      var m := ms[0];
      ScoresPass(g, choose, p, depth, breadth, done, c, m);
      RootScores(g, choose, p, depth, breadth, done + [m], ms[1..], Pass(p.side, c, m, Trial(g, choose, p, depth, breadth, m, c.draws)));
      Regroup(done, ms);
    }
  }

  /** Every first move's score is the mean of `breadth` successive helper
      runs of `depth - 1` plies below that move, each the evaluation at the
      end of its complete line (`HelperWalk`), and lies between the smallest
      and the largest of those values. */
  lemma StochasticScores(g: Rules, choose: Chooser, p: Position, depth: nat, breadth: nat)
    requires GenerateMoves(g, p) != [] ==> depth >= 2 && breadth >= 1
    ensures Averaged(g, choose, p, depth, breadth, GenerateMoves(g, p), Scores(g, choose, p, depth, breadth))
  {
    var ms := GenerateMoves(g, p);
    RootScores(g, choose, p, depth, breadth, [], ms, Initial(p.side));
    assert [] + ms == ms;
  }
}
