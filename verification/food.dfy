/**
 * Where modules/food.py puts a new piece of food: each coordinate is one
 * draw of `randrange(particleSize, dim - 2 * particleSize, particleSize)`
 * on the canvas width or height.
 */
module Food {
  import opened Geometry

  /** The outcome of a draw: a value, or the error randrange raises on an empty range. */
  datatype Drawn<+T> = Ok(value: T) | EmptyRange

  /** The number of values in `range(start, stop, step)` for a positive step. */
  function RangeLength(start: int, stop: int, step: int): (n: nat)
    requires step > 0
    ensures n > 0 <==> start < stop
    ensures n > 0 ==> start + (n - 1) * step < stop <= start + n * step
  {
    if stop <= start then 0
    else
      var n := (stop - start + step - 1) / step;
      assert n * step <= stop - start + step - 1 < n * step + step;
      n
  }

  /**
   * `randrange(start, stop, step)`: the generator's choice is the natural
   * number `k`, and the value drawn is the `k mod n`-th of the `n` values of
   * the range, so that every `k` stands for some outcome.
   */
  function RandRange(start: int, stop: int, step: int, k: nat): (r: Drawn<int>)
    requires step > 0
    ensures r.Ok? <==> start < stop
    ensures r.Ok? ==> start <= r.value < stop && (r.value - start) % step == 0
  {
    var n := RangeLength(start, stop, step);
    if n == 0 then EmptyRange
    else
      var i := k % n;
      MulLe(i, n - 1, step);
      MulMod(i, step);
      Ok(start + i * step)
  }

  /** Every value of the range is drawn by some choice of the generator. */
  lemma RandRangeReachesEvery(start: int, stop: int, step: int, v: int)
    requires step > 0
    requires start <= v < stop && (v - start) % step == 0
    ensures RandRange(start, stop, step, (v - start) / step) == Ok(v)
  {
    var n := RangeLength(start, stop, step);
    var d := v - start;
    var i := d / step;
    assert d == i * step + d % step;
    if i >= n {
      MulLe(n, i, step);
      assert false;
    }
    DivModUnique(i, n, 0, i);
  }

  // Arithmetic facts about multiples of a symbolic step.

  lemma MulLe(a: int, b: int, s: int)
    requires a <= b && s > 0
    ensures a * s <= b * s
  {
  }

  lemma DivModUnique(x: int, s: int, q: int, r: int)
    requires s > 0 && x == q * s + r && 0 <= r < s
    ensures x % s == r && x / s == q
  {
    var q', r' := x / s, x % s;
    assert x == q' * s + r';
    if q' < q {
      MulLe(q' + 1, q, s);
      assert false;
    } else if q < q' {
      MulLe(q + 1, q', s);
      assert false;
    }
  }

  lemma MulMod(i: int, s: int)
    requires s > 0
    ensures (i * s) % s == 0
  {
    DivModUnique(i * s, s, i, 0);
  }

  /** A position a piece of food can take on a canvas of the given size. */
  predicate IsFoodSpot(c: Cell, width: int, height: int, particleSize: int)
    requires particleSize > 0
  {
    && particleSize <= c.x < width - 2 * particleSize
    && particleSize <= c.y < height - 2 * particleSize
    && (c.x - particleSize) % particleSize == 0
    && (c.y - particleSize) % particleSize == 0
  }

  /**
   * The position chosen by the Food constructor, with `kx` and `ky` the
   * generator's two choices.  It fails exactly when the canvas is too small
   * for the range to hold a value.
   */
  function Place(width: int, height: int, particleSize: int, kx: nat, ky: nat): (r: Drawn<Cell>)
    requires particleSize > 0
    ensures r.Ok? <==> width > 3 * particleSize && height > 3 * particleSize
    ensures r.Ok? ==> IsFoodSpot(r.value, width, height, particleSize)
  {
    match RandRange(particleSize, width - particleSize * 2, particleSize, kx)
    case EmptyRange => EmptyRange
    case Ok(x) =>
      match RandRange(particleSize, height - particleSize * 2, particleSize, ky)
      case EmptyRange => EmptyRange
      case Ok(y) => Ok(Cell(x, y))
  }

  /** Every food spot is chosen by some pair of draws, so Place describes all outcomes. */
  lemma PlaceReachesEvery(c: Cell, width: int, height: int, particleSize: int)
    requires particleSize > 0
    requires IsFoodSpot(c, width, height, particleSize)
    ensures Place(width, height, particleSize,
                  (c.x - particleSize) / particleSize, (c.y - particleSize) / particleSize) == Ok(c)
  {
    RandRangeReachesEvery(particleSize, width - particleSize * 2, particleSize, c.x);
    RandRangeReachesEvery(particleSize, height - particleSize * 2, particleSize, c.y);
  }

  /** With the game's particle size every food spot lies on the 10-pixel grid. */
  lemma FoodSpotAligned(c: Cell, width: int, height: int)
    requires IsFoodSpot(c, width, height, Step)
    ensures Aligned(c)
  {
  }
}
