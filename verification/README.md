# Lindworm game logic in Dafny

This project models the turn-by-turn logic of Lindworm, a Snake game. The
original is written in Python on top of a GUI toolkit: a window class
`Lindworm` drives a `Snake` item and `Food` items on a graphics scene. The
model keeps the three pieces of game logic and leaves out the drawing:

- `snake.dfy`, module `Snake` (modules/snake.py). The class `Snake` holds
  the body, a sequence of pixel cells with the head first, and the direction,
  one of four 10-pixel vectors. Its methods `Grow`, `ChangeDirection` and
  `Move` update that state in place. The pure functions `Grown`, `Moved`,
  `NewDirection` and `MovedAlong` say what each update computes, and lemmas
  prove the length, shape and alignment properties. The key one is the
  deferred growth: `grow` appends a copy of the tail, so the next move drops
  the copy and the snake is one cell longer.
- `food.dfy`, module `Food` (modules/food.py). The food position is two
  `randrange` draws. The generator's choice is a natural-number parameter.
  `RandRange` and `Place` state the bounds and the step alignment of every
  outcome, and the empty-range error. `RandRangeReachesEvery` and
  `PlaceReachesEvery` show that every admissible position is some outcome.
- `lindworm.dfy`, module `Lindworm` (lindworm.py). The class `Lindworm` is
  the controller. Its fields are the snake, the optional regular and special
  food, `playing`, `speed`, `score` and the start time of the elapsed-time
  clock. Its methods are `StartGame`, `EndGame`, `AddFood`, `KeyPress` and
  `Tick`. `Tick` is the timer callback; it runs as a straight line of step
  methods (`SpawnSpecial`, `SpeedUp`, `EatFood`, `EatSpecial`,
  `CheckCollisions`), in the source's order. Its postcondition states the
  whole new state in terms of the old one. The class invariant `Valid`,
  which every method preserves, says that while a game runs the regular
  food is never on the snake's body.
- `geometry.dfy`, `keys.dfy` and `optional.dfy` hold the shared vocabulary:
  cells and direction vectors, the key codes, and `Option`.

Randomness, time and the canvas become inputs:

- Each food placement consumes a stream of positions drawn by successive
  `Food` constructions. Every position in the stream is a spot `Food.Place`
  can choose.
- The snake's initial direction is a nondeterministic choice.
- `Tick`, `StartGame` and `KeyPress` take the clock time `now` in
  milliseconds.
- `Tick` takes the view's width and height, which the source re-reads on
  every tick.
- The scene's width and height are fixed when the window is built. They are
  constants of the class, and food is placed on them.

Quirks of the code that the model keeps:

- The move happens first in the model. In the source, `timerEvent` only
  calls `snake.update()`, which schedules a repaint, and the move runs later
  in `Snake.paint`. This is flagged in a comment in `Tick`.
- When one tick eats both foods, the snake grows twice, but the score becomes
  the score read at the start of the tick plus 5, not plus 6.
- The special-food rule is checked before anything is eaten, using the score
  read at the start of the tick.
- `endGame` never clears the special food. A special food left over from one
  game is still on record in the next, so no new one appears until the
  snake eats the old one at its old position.
- The speed loses 10 ms every 60 seconds with no lower bound. Only
  `endGame` resets it to 100; `startGame` does not.
- A new snake starts at (20, 20) moving right or down. The source comment
  says "Left or Down".

Positions are pixels on a 10-pixel grid. A new snake always starts at
(20, 20). The special-food and speed rules run before eating. The speed has
no floor. Food placement retries without a cap.

## Model

| member | source | states |
|---|---|---|
| Geometry.Opposite | modules/snake.py:26-33 | the opposite of a vector cancels it, and it is a unit direction exactly when the vector is |
| Geometry.AddKeepsAlignment | modules/snake.py:45 | adding a unit direction to a cell on the 10-pixel grid keeps it on the grid |
| Snake.KeyDirection | modules/snake.py:26-33 | each of the eight steering keys asks for one of the four unit directions |
| Snake.Grown | modules/snake.py:20-23 | grow raises the length by one, keeps every existing cell, and the new last cell equals the old last cell |
| Snake.Moved | modules/snake.py:45-49 | a move keeps the length; the new head is the old head plus the direction; the rest is the old body without its last cell |
| Snake.NewDirectionSpec | modules/snake.py:25-33 | a steering key sets its direction unless that is the reverse of the stored one; a reversing key or a non-steering key leaves the direction unchanged |
| Snake.NeverReverses | modules/snake.py:25-33 | from a unit direction, changeDirection yields a unit direction that is never the exact reverse of the stored one |
| Snake.TwoTurnsReverse | modules/snake.py:25-33 | Left is refused while moving right, but Up then Left reverses the snake in two calls |
| Snake.MovedAlong | modules/snake.py:45-49 | any number of moves without growth leaves the length unchanged |
| Snake.StraightMoves | modules/snake.py:45-49 | a one-cell snake moving n times in one direction ends n steps away |
| Snake.FiveMovesFromStart | modules/snake.py:18 | a fresh snake moving right five times is the single cell (70, 20) |
| Snake.MoveKeepsAlignment | modules/snake.py:45-49 | a move by a unit direction keeps every body cell a multiple of 10 |
| Snake.MovesKeepAlignment | modules/snake.py:14-18 | starting on the grid, any sequence of unit moves keeps every body cell on the grid |
| Snake.GrowThenMove | modules/snake.py:20-49 | grow followed by one move is the new head in front of the whole old body: length plus one, and the old tail is still the last cell |
| Snake.GrownSameCells | modules/snake.py:20-23 | growing adds no new position to the body |
| Snake.MovedCells | modules/snake.py:45-49 | after a move, every cell is the new head or was already in the body |
| Snake.Snake.constructor | modules/snake.py:9-18 | a fresh snake is the single cell (20, 20), moving right or down |
| Snake.Snake.Grow | modules/snake.py:20-23 | the body becomes Grown of the old body; the direction is unchanged; the snake stays valid |
| Snake.Snake.ChangeDirection | modules/snake.py:25-33 | the direction becomes NewDirection of the old one and the key; the body is unchanged |
| Snake.Snake.Move | modules/snake.py:45-49 | the body becomes Moved of the old body and direction; the body stays non-empty and on the grid |
| Food.RangeLength | modules/food.py:27-28 | the range has values exactly when start < stop, and its last value is below stop while one more step reaches stop |
| Food.RandRange | modules/food.py:27-28 | a draw fails exactly on an empty range; otherwise the value is in [start, stop) and a whole number of steps from start |
| Food.RandRangeReachesEvery | modules/food.py:27-28 | every value of the range is drawn by some choice of the generator |
| Food.Place | modules/food.py:27-30 | placement succeeds exactly when width and height exceed three particle sizes; x is in [ps, width - 2ps) and y in [ps, height - 2ps), both ps plus a multiple of ps |
| Food.PlaceReachesEvery | modules/food.py:27-30 | every position with those bounds and that alignment is chosen by some pair of draws |
| Food.FoodSpotAligned | modules/food.py:27-28 | with particle size 10, every food position lies on the 10-pixel grid |
| Lindworm.FirstFree | lindworm.py:93-102 | the rejection loop's food is off the snake's body and is one of the drawn positions |
| Lindworm.FirstFreeIsFirst | lindworm.py:97-102 | that food is the first draw off the body; every earlier draw landed on the body |
| Lindworm.FirstFreeIsFoodSpot | lindworm.py:97-99 | food placed from a stream of food positions is itself a valid food position |
| Lindworm.FirstFreeSameCells | lindworm.py:101 | two bodies with the same cells give the same placed food |
| Lindworm.SelfCollision | lindworm.py:202 | self-collision holds iff the body is longer than two cells and some later cell equals the head |
| Lindworm.ShortSnakeNeverCollides | lindworm.py:199-202 | self-collision never ends the game while the body has at most two cells |
| Lindworm.FirstMealIsNoCollision | lindworm.py:199-202 | right after a one-cell snake grows, its head is also in the rest of the body, yet this is not a collision |
| Lindworm.FoodNeverInWall | lindworm.py:191-196 | with particle size 10, every food position passes the tick's wall test when the view has the canvas's size, and lies on the grid |
| Lindworm.Lindworm.constructor | lindworm.py:26-35 | before any game: no snake, no food, no special food, not playing, speed 100 |
| Lindworm.Lindworm.AddFood | lindworm.py:89-113 | the placed food is the first draw off the body; it is stored as the special food when asked, and as the regular food otherwise |
| Lindworm.Lindworm.StartGame | lindworm.py:46-67 | score 0, playing, the clock restarted, a fresh snake at (20, 20), regular food off its body; the special food and the speed stay as they were |
| Lindworm.Lindworm.EndGame | lindworm.py:69-87 | not playing, speed reset to 100; both foods, the score and the snake stay as they were |
| Lindworm.Lindworm.KeyPress | lindworm.py:122-140 | Enter or Return starts a game only when none runs; a steering key turns the snake only while playing; any other case changes nothing |
| Lindworm.Lindworm.Tick | lindworm.py:142-204 | one tick from the old state: move; the body grows once per food eaten; score +1, or +5 if the special food is eaten (from the pre-tick score); new regular food off the body when it is eaten; special food spawned iff the rule holds and none exists, and removed when eaten; speed -10 and clock restart after 60 s; playing ends iff the head hits a wall or the body; a tick outside a game changes nothing; the food-off-body invariant is preserved |
| Lindworm.Lindworm.SpawnSpecial | lindworm.py:158-160 | a special food is added iff the pre-tick score is a nonzero multiple of 15 and none exists; it is off the body |
| Lindworm.Lindworm.SpeedUp | lindworm.py:162-174 | at 60000 ms or more on the clock, the clock restarts and the speed drops by exactly 10, with no floor; otherwise nothing changes |
| Lindworm.Lindworm.EatFood | lindworm.py:176-181 | when the head is on the regular food: grow once, score = pre-tick score + 1, new food off the body; otherwise nothing changes |
| Lindworm.Lindworm.EatSpecial | lindworm.py:183-189 | when a special food is at the head: grow, score = pre-tick score + 5 (overwriting a +1), no special food; otherwise nothing changes |
| Lindworm.Lindworm.CheckCollisions | lindworm.py:191-204 | the game ends, with the speed reset, iff the head is outside the walls or collides with the body |

## Left out

- Rendering is not modelled: the drawing half of `Snake.paint` and `Food.paint`, `boundingRect`, brushes and pens, `Food.changeBrush`, and all of modules/border.py.
- Window plumbing is not modelled: loading the UI, the icon, `centerOnScreen`, `closeEvent`, the shake animation of `shakeItLikeItsHot` (including which axis hit the wall) and the application bootstrap in `__main__.py`.
- Scene membership is not modelled: adding and removing snake and food items on the canvas, and the hiding of both foods by `endGame`.
- Snake.Snake.Move: the source moves inside `paint`, which runs whenever the toolkit repaints. A repaint for any other reason moves the snake an extra time. The model moves exactly once per tick, as the tick's first step.
- Lindworm.Lindworm.Tick: the game timer (`QBasicTimer.start`/`stop`) is not modelled. `playing` stands for the timer running, so a tick outside a game does nothing. Rescheduling the timer at the new speed is reduced to the `speed` field.
- Lindworm.Lindworm.AddFood: the source's retry loop runs forever when no free spot is ever drawn. The model instead takes a finite stream of drawn positions and requires one of them to be off the body, so it does not model that non-termination or the uniform distribution of the draws.
- Lindworm.Lindworm.constructor: requires a canvas wider and taller than 30 pixels. On a smaller canvas `randrange` raises `ValueError` at the first food placement. Food.Place models that error as `EmptyRange`, but the controller does not follow the exception.
- The score is kept as an integer field. The source stores it as label text, parsed back by `getScore`, and replaced by a game-over message in `endGame`.
- Canvas and view sizes are integers. In the source they are floating-point values from the toolkit.
- `Food.__init__` reads `parent.particleSize` (modules/food.py:21), and nothing in lindworm.py defines that attribute, so as written the first `addFood` raises `AttributeError` and no food is ever placed. The model does not follow that error: it assumes a particle size of 10, the step hard-coded in the snake and the border, so that food placement can be studied at all.
