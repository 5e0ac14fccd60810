/**
 * The snake of modules/snake.py: a body of pixel cells, head first, and the
 * direction it moves in.  The pure functions below say what each operation
 * does to a body or a direction; the class Snake performs them in place.
 */
module Snake {
  import opened Geometry
  import opened Keys

  /** Where every new snake starts. */
  const StartCell: Cell := Cell(20, 20)

  /** The direction a steering key asks for. */
  function KeyDirection(k: Key): (d: Cell)
    requires IsMoveKey(k)
    ensures IsDirection(d)
  {
    match k
    case KeyLeft => Left
    case KeyA => Left
    case KeyRight => Right
    case KeyD => Right
    case KeyUp => Up
    case KeyW => Up
    case KeyDown => Down
    case KeyS => Down
  }

  /**
   * The body after `grow`: the last cell is appended a second time, so the
   * next move (which drops the last cell) leaves the old tail in place.
   */
  function Grown(body: seq<Cell>): (r: seq<Cell>)
    requires |body| >= 1
    ensures |r| == |body| + 1
    ensures r[..|body|] == body
    ensures r[|body|] == body[|body| - 1]
  {
    body + [body[|body| - 1]]
  }

  /** The body after one move: a new head one step ahead, the last cell dropped. */
  function Moved(body: seq<Cell>, direction: Cell): (r: seq<Cell>)
    requires |body| >= 1
    ensures |r| == |body|
    ensures r[0] == Add(body[0], direction)
    ensures r[1..] == body[..|body| - 1]
  {
    [Add(body[0], direction)] + body[..|body| - 1]
  }

  /** The direction after `changeDirection(key)`. */
  function NewDirection(direction: Cell, key: Key): Cell {
    if (key == KeyA || key == KeyLeft) && direction != Right then Left
    else if (key == KeyD || key == KeyRight) && direction != Left then Right
    else if (key == KeyS || key == KeyDown) && direction != Up then Down
    else if (key == KeyW || key == KeyUp) && direction != Down then Up
    else direction
  }

  /**
   * A steering key sets its own direction unless that is the exact opposite
   * of the current one; a reversing key, or any key that does not steer,
   * leaves the direction as it was.
   */
  lemma NewDirectionSpec(direction: Cell, key: Key)
    ensures !IsMoveKey(key) ==> NewDirection(direction, key) == direction
    ensures IsMoveKey(key) && KeyDirection(key) != Opposite(direction) ==>
      NewDirection(direction, key) == KeyDirection(key)
    ensures IsMoveKey(key) && KeyDirection(key) == Opposite(direction) ==>
      NewDirection(direction, key) == direction
  {
  }

  /** The direction stays a unit vector and never becomes the reverse of the stored one. */
  lemma NeverReverses(direction: Cell, key: Key)
    requires IsDirection(direction)
    ensures IsDirection(NewDirection(direction, key))
    ensures NewDirection(direction, key) != Opposite(direction)
  {
  }

  /** The body after one move per entry of `directions`, with no growth in between. */
  function MovedAlong(body: seq<Cell>, directions: seq<Cell>): (r: seq<Cell>)
    requires |body| >= 1
    ensures |r| == |body|
    decreases |directions|
  {
    if directions == [] then body
    else MovedAlong(Moved(body, directions[0]), directions[1..])
  }

  /** A one-cell snake that moves n times in one direction without eating ends n steps on. */
  lemma {:induction false} StraightMoves(head: Cell, direction: Cell, n: nat)
    ensures MovedAlong([head], seq(n, _ => direction)) ==
            [Cell(head.x + n * direction.x, head.y + n * direction.y)]
    decreases n
  {
    if n > 0 {
      var ds := seq(n, _ => direction);
      assert ds[1..] == seq(n - 1, _ => direction);
      assert Moved([head], direction) == [Add(head, direction)];
      StraightMoves(Add(head, direction), direction, n - 1);
    }
  }

  /** A fresh snake that moves right five times without eating is still one cell long, 50 pixels on. */
  lemma FiveMovesFromStart()
    ensures MovedAlong([StartCell], [Right, Right, Right, Right, Right]) == [Cell(70, 20)]
  {
    assert [Right, Right, Right, Right, Right] == seq(5, _ => Right);
    StraightMoves(StartCell, Right, 5);
  }

  /** Every cell of the body lies on the 10-pixel grid. */
  ghost predicate AllAligned(body: seq<Cell>) {
    forall i :: 0 <= i < |body| ==> Aligned(body[i])
  }

  /** One move by a unit vector keeps the body on the grid. */
  lemma MoveKeepsAlignment(body: seq<Cell>, direction: Cell)
    requires |body| >= 1 && AllAligned(body) && IsDirection(direction)
    ensures AllAligned(Moved(body, direction))
  {
  }

  /** Any number of moves by unit vectors keeps the body on the grid. */
  lemma {:induction false} MovesKeepAlignment(body: seq<Cell>, directions: seq<Cell>)
    requires |body| >= 1 && AllAligned(body)
    requires forall i :: 0 <= i < |directions| ==> IsDirection(directions[i])
    ensures AllAligned(MovedAlong(body, directions))
    decreases |directions|
  {
    if directions != [] {
      MoveKeepsAlignment(body, directions[0]);
      MovesKeepAlignment(Moved(body, directions[0]), directions[1..]);
    }
  }

  /**
   * The deferred growth: growing and then moving puts the new head in front
   * of the whole old body, so the length rises by one and the old tail stays
   * the last cell.
   */
  lemma GrowThenMove(body: seq<Cell>, direction: Cell)
    requires |body| >= 1
    ensures Moved(Grown(body), direction) == [Add(body[0], direction)] + body
    ensures |Moved(Grown(body), direction)| == |body| + 1
    ensures Moved(Grown(body), direction)[|body|] == body[|body| - 1]
  {
  }

  /** Growing adds no new cell: a position is in the grown body iff it was in the body. */
  lemma GrownSameCells(body: seq<Cell>)
    requires |body| >= 1
    ensures forall c :: c in Grown(body) <==> c in body
  {
  }

  /** Moving adds only the new head: every other cell of the moved body was in the body. */
  lemma MovedCells(body: seq<Cell>, direction: Cell)
    requires |body| >= 1
    ensures forall c :: c in Moved(body, direction) ==> c == Add(body[0], direction) || c in body
  {
  }

  /**
   * Each guard of changeDirection looks only at the stored direction, so two
   * calls can still reverse the snake: Right, then Up, then Left.
   */
  lemma TwoTurnsReverse()
    ensures NewDirection(Right, KeyLeft) == Right
    ensures NewDirection(NewDirection(Right, KeyUp), KeyLeft) == Left
    ensures Left == Opposite(Right)
  {
  }

  class Snake {
    var body: seq<Cell>
    var direction: Cell

    /** The body is never empty, the direction is a unit vector, and the body is on the grid. */
    ghost predicate Valid()
      reads this
    {
      |body| >= 1 && IsDirection(direction) && AllAligned(body)
    }

    /** A fresh snake: one cell at (20, 20), moving right or down at random. */
    constructor ()
      ensures Valid()
      ensures body == [StartCell]
      ensures direction == Right || direction == Down
    {
      var d :| d in {Right, Down};
      direction := d;
      body := [StartCell];
    }

    /** Append a copy of the last cell. */
    method Grow()
      requires Valid()
      modifies this
      ensures Valid()
      ensures body == Grown(old(body))
      ensures direction == old(direction)
    {
      body := body + [body[|body| - 1]];
    }

    /** React to a steering key, refusing a direct reversal. */
    method ChangeDirection(key: Key)
      requires Valid()
      modifies this
      ensures Valid()
      ensures direction == NewDirection(old(direction), key)
      ensures body == old(body)
    {
      if (key == KeyA || key == KeyLeft) && direction != Right {
        direction := Left;
      } else if (key == KeyD || key == KeyRight) && direction != Left {
        direction := Right;
      } else if (key == KeyS || key == KeyDown) && direction != Up {
        direction := Down;
      } else if (key == KeyW || key == KeyUp) && direction != Down {
        direction := Up;
      }
    }

    /** The move step of `paint`: compute the new head, pop the tail, insert the head. */
    method Move()
      requires Valid()
      modifies this
      ensures Valid()
      ensures body == Moved(old(body), old(direction))
      ensures direction == old(direction)
    {
      var head := Add(body[0], direction);
      body := body[..|body| - 1];
      body := [head] + body;
      MoveKeepsAlignment(old(body), direction);
    }
  }
}
