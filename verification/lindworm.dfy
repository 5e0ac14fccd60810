/**
 * The game controller of lindworm.py: starting and ending a game, placing
 * food off the snake, routing keys, and the per-tick rules for moving,
 * eating, scoring, the special food, speeding up and dying.
 */
module Lindworm {
  import opened Optional
  import opened Geometry
  import opened Keys
  import Food
  import Snake

  /**
   * The particle size the Food constructor reads from its parent.  The
   * controller never defines one, so in the program the first food
   * placement fails; the model assumes the step every other part of the
   * game hard-codes.
   */
  const ParticleSize: int := Step

  /** The timer interval of a new game, in milliseconds (lower is faster). */
  const InitialSpeed: int := 100
  /** Play time after which the game speeds up, in milliseconds. */
  const SpeedUpAfter: int := 60000
  /** How much each speed-up takes off the timer interval. */
  const SpeedUpBy: int := 10
  /** A special food appears whenever the score is a nonzero multiple of this. */
  const SpecialEvery: int := 15
  /** Points for the regular food. */
  const FoodPoints: int := 1
  /** Points for the special food. */
  const SpecialPoints: int := 5

  /** A canvas on which the Food constructor can place anything at all. */
  predicate RoomForFood(width: int, height: int) {
    width > 3 * ParticleSize && height > 3 * ParticleSize
  }

  /**
   * A stream of positions drawn by successive Food constructions on a canvas
   * of the given size: each one a spot Food.Place can choose.
   */
  predicate AreFoodSpots(draws: seq<Cell>, width: int, height: int) {
    forall i :: 0 <= i < |draws| ==> Food.IsFoodSpot(draws[i], width, height, ParticleSize)
  }

  /** Some draw of the stream is off the body. */
  predicate HasFree(draws: seq<Cell>, body: seq<Cell>) {
    exists i :: 0 <= i < |draws| && draws[i] !in body
  }

  /**
   * Where the rejection loop of addFood puts the food: at the first draw of
   * the stream that is off the body.
   */
  function FirstFree(draws: seq<Cell>, body: seq<Cell>): (c: Cell)
    requires HasFree(draws, body)
    ensures c !in body && c in draws
    decreases |draws|
  {
    if draws[0] !in body then draws[0]
    else
      assert HasFree(draws[1..], body) by {
        var i :| 0 <= i < |draws| && draws[i] !in body;
        assert i > 0 && draws[1..][i - 1] == draws[i];
      }
      FirstFree(draws[1..], body)
  }

  /**
   * FirstFree is the outcome of the rejection loop: some draw of the
   * stream, every earlier draw having landed on the body.
   */
  lemma {:induction false} FirstFreeIsFirst(draws: seq<Cell>, body: seq<Cell>) returns (i: nat)
    requires HasFree(draws, body)
    ensures i < |draws| && FirstFree(draws, body) == draws[i]
    ensures forall j :: 0 <= j < i ==> draws[j] in body
    decreases |draws|
  {
    if draws[0] !in body {
      i := 0;
    } else {
      var k :| 0 <= k < |draws| && draws[k] !in body;
      assert k > 0 && draws[1..][k - 1] == draws[k];
      var i' := FirstFreeIsFirst(draws[1..], body);
      i := i' + 1;
      forall j | 0 <= j < i ensures draws[j] in body {
        if j > 0 { assert draws[j] == draws[1..][j - 1]; }
      }
    }
  }

  /** Food placed from a stream of food spots is itself a food spot. */
  lemma FirstFreeIsFoodSpot(draws: seq<Cell>, body: seq<Cell>, width: int, height: int)
    requires AreFoodSpots(draws, width, height) && HasFree(draws, body)
    ensures Food.IsFoodSpot(FirstFree(draws, body), width, height, ParticleSize)
  {
  }

  /** The rejection loop only asks whether a position is on the body, so bodies with the same cells give the same food. */
  lemma {:induction false} FirstFreeSameCells(draws: seq<Cell>, b1: seq<Cell>, b2: seq<Cell>)
    requires forall c :: c in b1 <==> c in b2
    requires HasFree(draws, b1)
    ensures HasFree(draws, b2)
    ensures FirstFree(draws, b1) == FirstFree(draws, b2)
    decreases |draws|
  {
    var i :| 0 <= i < |draws| && draws[i] !in b1;
    assert draws[i] !in b2;
    if draws[0] in b1 {
      assert i > 0 && draws[1..][i - 1] == draws[i];
      FirstFreeSameCells(draws[1..], b1, b2);
    }
  }

  /** The wall test of the tick: the head is outside the inner rectangle of the view. */
  predicate HitsWall(head: Cell, width: int, height: int) {
    head.x > width - 20 || head.x < 10 || head.y > height - 20 || head.y < 10
  }

  /**
   * The self-collision test of the tick: the head is on another cell of
   * the body, counted only for bodies of more than two cells.
   */
  function SelfCollision(body: seq<Cell>): (r: bool)
    requires |body| >= 1
    ensures r <==> |body| > 2 && exists i :: 1 <= i < |body| && body[i] == body[0]
  {
    var collided := body[0] in body[1..] && |body| > 2;
    assert collided ==> exists i :: 1 <= i < |body| && body[i] == body[0] by {
      if collided {
        var k :| 0 <= k < |body[1..]| && body[1..][k] == body[0];
        assert body[k + 1] == body[0];
      }
    }
    assert (exists i :: 1 <= i < |body| && body[i] == body[0]) ==> body[0] in body[1..] by {
      if i :| 1 <= i < |body| && body[i] == body[0] {
        assert body[1..][i - 1] == body[0];
      }
    }
    collided
  }

  /** Self-collision never ends the game of a snake of one or two cells. */
  lemma ShortSnakeNeverCollides(body: seq<Cell>)
    requires 1 <= |body| <= 2
    ensures !SelfCollision(body)
  {
  }

  /**
   * Why the length guard is there: right after a one-cell snake eats, its
   * head is also its duplicated tail, which is not a collision.
   */
  lemma FirstMealIsNoCollision(head: Cell)
    ensures Snake.Grown([head]) == [head, head]
    ensures head in Snake.Grown([head])[1..]
    ensures !SelfCollision(Snake.Grown([head]))
  {
  }

  /** A special food appears when the score read at the start of the tick is a nonzero multiple of 15 and none exists. */
  predicate SpawnsSpecial(score: int, special: Option<Cell>) {
    score % SpecialEvery == 0 && score != 0 && special.None?
  }

  /** Food is never placed where the head would hit the wall, when the view has the canvas's size. */
  lemma FoodNeverInWall(c: Cell, width: int, height: int)
    requires Food.IsFoodSpot(c, width, height, ParticleSize)
    ensures !HitsWall(c, width, height)
    ensures Aligned(c)
  {
  }

  class Lindworm {
    /** The scene's size, fixed when the window is built; food is placed on it. */
    const canvasWidth: int
    const canvasHeight: int

    var snake: Snake.Snake?
    var food: Option<Cell>
    var special: Option<Cell>
    var playing: bool
    /** The timer interval in milliseconds. */
    var speed: int
    /** The number shown in the score label. */
    var score: int
    /** The clock time at which the elapsed-time counter was last (re)started. */
    var clockStart: int

    /**
     * The canvas has room for food, the score is never negative, the snake
     * is valid, and every food on record lies on a food spot of the canvas.
     */
    ghost predicate Consistent()
      reads this, snake
    {
      && RoomForFood(canvasWidth, canvasHeight)
      && score >= 0
      && (snake != null ==> snake.Valid())
      && (food.Some? ==> Food.IsFoodSpot(food.value, canvasWidth, canvasHeight, ParticleSize))
      && (special.Some? ==> Food.IsFoodSpot(special.value, canvasWidth, canvasHeight, ParticleSize))
    }

    /** Besides, while a game runs there is a snake and a regular food off its body. */
    ghost predicate Valid()
      reads this, snake
    {
      Consistent() && (playing ==> snake != null && food.Some? && food.value !in snake.body)
    }

    /** The window before any game: no snake, no food, not playing, speed 100. */
    constructor (width: int, height: int)
      requires RoomForFood(width, height)
      ensures Valid()
      ensures canvasWidth == width && canvasHeight == height
      ensures snake == null && food == None && special == None
      ensures !playing && speed == InitialSpeed && score == 0
    {
      canvasWidth, canvasHeight := width, height;
      snake, food, special := null, None, None;
      playing := false;
      speed := InitialSpeed;
      score := 0;
      clockStart := 0;
    }

    /**
     * addFood: build food from successive draws until one is off the body,
     * then store it as the special or the regular food.
     */
    method AddFood(isSpecial: bool, draws: seq<Cell>)
      requires Consistent() && snake != null
      requires AreFoodSpots(draws, canvasWidth, canvasHeight) && HasFree(draws, snake.body)
      modifies this`food, this`special
      ensures Consistent()
      ensures isSpecial ==> special == Some(FirstFree(draws, snake.body)) && food == old(food)
      ensures !isSpecial ==> food == Some(FirstFree(draws, snake.body)) && special == old(special)
    {
      ghost var goal := FirstFree(draws, snake.body);
      var found: Option<Cell> := None;
      var i := 0;
      while found.None?
        invariant 0 <= i <= |draws|
        invariant found.None? ==> HasFree(draws[i..], snake.body) &&
                                  FirstFree(draws[i..], snake.body) == goal
        invariant found.Some? ==> found == Some(goal)
        decreases |draws| - i
      {
        var pos := draws[i];
        found := Some(pos);
        if pos in snake.body {
          found := None;
          assert draws[i..][1..] == draws[i + 1..];
        }
        i := i + 1;
      }
      FirstFreeIsFoodSpot(draws, snake.body, canvasWidth, canvasHeight);
      if isSpecial {
        special := found;
      } else {
        food := found;
      }
    }

    /** A new game: score 0, playing, a fresh snake, and regular food off its body. */
    method StartGame(now: int, draws: seq<Cell>)
      requires Valid()
      requires AreFoodSpots(draws, canvasWidth, canvasHeight)
      requires HasFree(draws, [Snake.StartCell])
      modifies this
      ensures Valid() && fresh(snake)
      ensures playing && score == 0 && clockStart == now
      ensures snake.body == [Snake.StartCell]
      ensures snake.direction == Right || snake.direction == Down
      ensures food == Some(FirstFree(draws, [Snake.StartCell]))
      ensures special == old(special) && speed == old(speed)
    {
      score := 0;
      playing := true;
      clockStart := now;
      snake := new Snake.Snake();
      AddFood(false, draws);
    }

    /** Game over: stop playing and reset the speed; both foods and the score stay as they are. */
    method EndGame()
      requires Consistent()
      modifies this`playing, this`speed
      ensures Valid()
      ensures !playing && speed == InitialSpeed
    {
      playing := false;
      speed := InitialSpeed;
    }

    /**
     * keyPressEvent: a start key starts a game when none is running; a
     * steering key turns the snake while a game is running; every other
     * key, in every other state, changes nothing.
     */
    method KeyPress(key: Key, now: int, draws: seq<Cell>)
      requires Valid()
      requires !playing && IsStartKey(key) ==>
        AreFoodSpots(draws, canvasWidth, canvasHeight) && HasFree(draws, [Snake.StartCell])
      modifies this, snake
      ensures Valid()
      ensures !old(playing) && IsStartKey(key) ==>
        && playing && score == 0 && clockStart == now && fresh(snake)
        && snake.body == [Snake.StartCell]
        && (snake.direction == Right || snake.direction == Down)
        && food == Some(FirstFree(draws, [Snake.StartCell]))
        && special == old(special) && speed == old(speed)
      ensures old(playing) && IsMoveKey(key) ==>
        && snake == old(snake)
        && snake.direction == Snake.NewDirection(old(snake.direction), key)
        && snake.body == old(snake.body)
        && unchanged(this)
      ensures !(!old(playing) && IsStartKey(key)) && !(old(playing) && IsMoveKey(key)) ==>
        unchanged(this) && (snake != null ==> unchanged(snake))
    {
      if !playing && IsStartKey(key) {
        StartGame(now, draws);
      }
      if playing && IsMoveKey(key) {
        snake.ChangeDirection(key);
      }
    }

    /** The body the next move produces. */
    ghost function NextBody(): (b: seq<Cell>)
      requires Valid() && playing
      reads this, snake
      ensures |b| == |snake.body|
    {
      Snake.Moved(snake.body, snake.direction)
    }

    /**
     * timerEvent: one tick of a running game.  The snake moves, the special
     * food may appear, the game may speed up, the snake eats what is under
     * its head, and hitting a wall or itself ends the game.  `now` is the
     * clock in milliseconds; `viewWidth` and `viewHeight` are the size of
     * the view the tick reads; the two streams feed the two food placements
     * the tick may make.  While no game runs the game timer is stopped, so
     * no tick reaches the game and nothing changes.
     */
    method Tick(now: int, viewWidth: int, viewHeight: int, specialDraws: seq<Cell>, foodDraws: seq<Cell>)
      requires Valid()
      requires playing && SpawnsSpecial(score, special) ==>
        AreFoodSpots(specialDraws, canvasWidth, canvasHeight) && HasFree(specialDraws, NextBody())
      requires playing && NextBody()[0] == food.value ==>
        AreFoodSpots(foodDraws, canvasWidth, canvasHeight) && HasFree(foodDraws, NextBody())
      modifies this, snake
      ensures Valid()
      ensures !old(playing) ==> unchanged(this) && (snake != null ==> unchanged(snake))
      ensures old(playing) ==> snake == old(snake) && snake.direction == old(snake.direction)
      // the body: moved once, then one extra tail cell per food eaten
      ensures old(playing) ==>
        var moved := old(NextBody());
        var ateFood := moved[0] == old(food).value;
        var ateSpecial := old(special) == Some(moved[0]);
        snake.body == if ateFood && ateSpecial then Snake.Grown(Snake.Grown(moved))
                      else if ateFood || ateSpecial then Snake.Grown(moved)
                      else moved
      // the score: +1 for the food, +5 for the special food, both from the score read at the start
      ensures old(playing) ==>
        var head := old(NextBody())[0];
        score == if old(special) == Some(head) then old(score) + SpecialPoints
                 else if head == old(food).value then old(score) + FoodPoints
                 else old(score)
      // the regular food: replaced, off the body, exactly when eaten
      ensures old(playing) ==>
        var moved := old(NextBody());
        food == if moved[0] == old(food).value
                then Some(FirstFree(foodDraws, moved))
                else old(food)
      // the special food: gone when eaten, spawned by the rule, otherwise kept
      ensures old(playing) ==>
        var moved := old(NextBody());
        special == if old(special) == Some(moved[0]) then None
                   else if SpawnsSpecial(old(score), old(special))
                   then Some(FirstFree(specialDraws, moved))
                   else old(special)
      // speed-up every 60 seconds of play, without a floor
      ensures old(playing) ==>
        var due := now - old(clockStart) >= SpeedUpAfter;
        && clockStart == (if due then now else old(clockStart))
        && speed == (if !playing then InitialSpeed
                     else if due then old(speed) - SpeedUpBy
                     else old(speed))
      // dying: a wall or the snake itself
      ensures old(playing) ==>
        playing == !(HitsWall(old(NextBody())[0], viewWidth, viewHeight) || SelfCollision(snake.body))
    {
      if !playing {
        return;
      }
      ghost var oldBody := snake.body;
      // In the running program the tick only asks the snake to repaint, and
      // the move happens in the snake's paint handler when control returns
      // to the event loop; the model makes that move the first step.
      snake.Move();
      var x := snake.body[0].x;
      var y := snake.body[0].y;
      var s := score;
      Snake.MovedCells(oldBody, old(snake.direction));
      SpawnSpecial(s, specialDraws);
      SpeedUp(now);
      EatFood(x, y, s, foodDraws);
      EatSpecial(x, y, s);
      CheckCollisions(x, y, viewWidth, viewHeight);
    }

    /** Tick step: a special food appears when the score read at the start of the tick calls for one. */
    method SpawnSpecial(s: int, draws: seq<Cell>)
      requires Consistent() && snake != null
      requires SpawnsSpecial(s, special) ==> AreFoodSpots(draws, canvasWidth, canvasHeight) && HasFree(draws, snake.body)
      modifies this`food, this`special
      ensures Consistent() && food == old(food)
      ensures special == if SpawnsSpecial(s, old(special)) then Some(FirstFree(draws, snake.body)) else old(special)
      ensures special != old(special) ==> special.value !in snake.body
    {
      if s % SpecialEvery == 0 && s != 0 && special.None? {
        AddFood(true, draws);
      }
    }

    /** Tick step: after a minute on the clock, restart it and take 10 ms off the interval. */
    method SpeedUp(now: int)
      modifies this`clockStart, this`speed
      ensures clockStart == if now - old(clockStart) >= SpeedUpAfter then now else old(clockStart)
      ensures speed == if now - old(clockStart) >= SpeedUpAfter then old(speed) - SpeedUpBy else old(speed)
    {
      var time := now - clockStart;
      if time >= SpeedUpAfter {
        clockStart := now;
        speed := speed - SpeedUpBy;
      }
    }

    /** Tick step: the head at (x, y) eats the regular food: grow, score s + 1, new food. */
    method EatFood(x: int, y: int, s: int, draws: seq<Cell>)
      requires Consistent() && snake != null && food.Some? && s >= 0
      requires Cell(x, y) == snake.body[0]
      requires food.value == Cell(x, y) || food.value !in snake.body
      requires food.value == Cell(x, y) ==> AreFoodSpots(draws, canvasWidth, canvasHeight) && HasFree(draws, snake.body)
      modifies this`food, this`special, this`score, snake
      ensures Consistent() && snake.direction == old(snake.direction) && special == old(special)
      ensures food.Some? && food.value !in snake.body
      ensures old(food).value == Cell(x, y) ==>
        && snake.body == Snake.Grown(old(snake.body))
        && score == s + FoodPoints
        && food == Some(FirstFree(draws, old(snake.body)))
      ensures old(food).value != Cell(x, y) ==>
        snake.body == old(snake.body) && score == old(score) && food == old(food)
    {
      if food.value.x == x && food.value.y == y {
        ghost var before := snake.body;
        snake.Grow();
        Snake.GrownSameCells(before);
        FirstFreeSameCells(draws, before, snake.body);
        score := s + FoodPoints;
        AddFood(false, draws);
      }
    }

    /** Tick step: the head at (x, y) eats the special food: grow, score s + 5, no special food. */
    method EatSpecial(x: int, y: int, s: int)
      requires Consistent() && snake != null && s >= 0
      modifies this`special, this`score, snake
      ensures Consistent() && snake.direction == old(snake.direction)
      ensures forall c :: c in snake.body <==> c in old(snake.body)
      ensures old(special) == Some(Cell(x, y)) ==>
        snake.body == Snake.Grown(old(snake.body)) && score == s + SpecialPoints && special == None
      ensures old(special) != Some(Cell(x, y)) ==>
        snake.body == old(snake.body) && score == old(score) && special == old(special)
    {
      if special.Some? {
        if special.value.x == x && special.value.y == y {
          ghost var before := snake.body;
          snake.Grow();
          Snake.GrownSameCells(before);
          score := s + SpecialPoints;
          special := None;
        }
      }
    }

    /** Tick step: a head at (x, y) outside the walls, or on the body of a long snake, ends the game. */
    method CheckCollisions(x: int, y: int, viewWidth: int, viewHeight: int)
      requires Consistent() && snake != null && playing && food.Some?
      requires food.value !in snake.body
      modifies this`playing, this`speed
      ensures Valid()
      ensures playing == !(HitsWall(Cell(x, y), viewWidth, viewHeight) || SelfCollision(snake.body))
      ensures speed == if playing then old(speed) else InitialSpeed
    {
      if x > viewWidth - 20 || x < 10 {
        EndGame();
      } else if y > viewHeight - 20 || y < 10 {
        EndGame();
      } else if snake.body[0] in snake.body[1..] && |snake.body| > 2 {
        EndGame();
      }
    }
  }
}
