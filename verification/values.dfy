/**
 Search values and the two sides of the game.

 The searches compare board evaluations against the sentinels `math.inf` and
 `-math.inf`, so a value is an evaluation extended with both infinities.
 Evaluations are modelled as exact reals; floating point is not modelled.
 */
module Values {

  /** The side to move. `Min` is the source's `True` (player 1), which seeks
      the smallest value; `Max` is `False`, which seeks the largest. */
  datatype Side = Min | Max

  /** A finite evaluation or one of the two infinities. */
  datatype Value = NegInf | Fin(v: real) | PosInf

  /** Strict order of extended values, as Python orders floats with `math.inf`. */
  predicate Less(x: Value, y: Value)
  {
    || (x.NegInf? && !y.NegInf?)
    || (x.Fin? && y.PosInf?)
    || (x.Fin? && y.Fin? && x.v < y.v)
  }

  predicate LessEq(x: Value, y: Value)
  {
    x == y || Less(x, y)
  }

  /** Python's `min(x, y)`: the first argument when they are equal. */
  function MinOf(x: Value, y: Value): (r: Value)
    ensures LessEq(r, x) && LessEq(r, y)
    ensures r == x || r == y
  {
    if LessEq(x, y) then x else y
  }

  /** Python's `max(x, y)`: the first argument when they are equal. */
  function MaxOf(x: Value, y: Value): (r: Value)
    ensures LessEq(x, r) && LessEq(y, r)
    ensures r == x || r == y
  {
    if LessEq(y, x) then x else y
  }

  /** The value a node starts from before any move is looked at:
      `math.inf` for the minimiser, `-math.inf` for the maximiser. */
  function Worst(s: Side): Value
  {
    if s.Min? then PosInf else NegInf
  }

  /** `x` is strictly better than `y` for side `s`: the strict comparison
      (`value > child` for `Min`, `value < child` for `Max`) that decides
      whether a child replaces the running best. */
  predicate Improves(s: Side, x: Value, y: Value)
  {
    if s.Min? then Less(x, y) else Less(y, x)
  }
}
