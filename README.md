# Snake game simulation core, modelled in Dafny

This project models the simulation core of a grid snake game written in Rust
on the Bevy engine (`src/main.rs`). A snake of at least two segments moves one
cell at a time on a 10 x 10 arena. It turns when an arrow key is held, but it
never turns round within one frame. Input is read every frame and movement
runs on a timer, so two frames between two steps can still turn it round, and
the next step then lands on its own neck. It eats the food items placed on
the board and grows by one segment at the cell its tail has just left.
Stepping into the wall or onto any cell the snake held before the step (its
tail cell included) ends the game: all food and segments are removed and the
start snake comes back, with its head at (3, 3) heading up and its body at
(3, 2).

The engine plumbing is stripped away. The game state is one class,
`Game.SnakeGame`, with these fields:

- `segments`: the segment positions, head first;
- `heading`: the head's direction;
- `food`: the food positions;
- `lastTail`: the recorded tail cell, the `LastTailPosition` resource;
- `pendingGrowth` and `pendingGameOver`: counters of growth and game-over
  signals sent but not yet read.

Each engine system becomes a method on that class:

- `Steer` is `snake_input_moviment`;
- `Move` is `snake_movement`;
- `Eat` is `snake_eating`;
- `Grow` is `snake_growth`;
- `GameOver` is `game_over` together with `spawn_snake`;
- `SpawnFood` is `food_spawner`.

`Tick` runs one scheduler pass in which the movement timer fires. It calls
input, then the chain movement → eating → growth (`MoveAndFeed`), then game
over. From any state satisfying `InPlay` (every segment, food and recorded
tail cell in the arena, and no unread game-over signal), `Tick` proves four
things:

- the state satisfies `InPlay` again;
- no other segment shares the head's cell;
- a colliding step ends with the start snake, heading Up and no food; the
  recorded tail cell and any unread growth signal carry over;
- any other step moves the snake, removes the food under the new head and
  grows the snake by at most one segment at the old tail cell.

Modules follow the parts of the program:

- `Grid` (`grid.dfy`): the arena constants, `Position`, `Direction`, the
  one-cell step and the wall test;
- `Input` (`input.dfy`): the held keys, the key precedence and the
  reversal rule;
- `Food` (`food.dfy`): what eating leaves on the board;
- `Game` (`game.dfy`): the state class, its systems, and scenario methods
  that replay concrete passes (start-up then eating, wall hit, tail-cell
  collision, ignored reversal, reversal over two frames, two foods on one
  cell, a queued growth signal read in the next pass, and in a frame with no
  movement, and a growth signal that outlives a reset).

On these points the model follows the code:

- Food is a list, and several items may be on the board at once, even on
  one cell, because the spawner never checks for food already there.
- A consuming system reads one signal per pass
  (`reader.read().into_iter().next()` moves the engine's event cursor past a
  single event), and the other signals stay queued for later passes
  (`ScenarioTwoFoodsOnOneCell`, `ScenarioQueuedGrowthNextPass`). The next
  frame usually has no movement step, so a queued growth signal then puts a
  second segment on the same recorded tail cell, and the two share that cell
  until the snake moves (`ScenarioQueuedGrowthIdleFrame`).
- Moving onto the cell the tail is about to leave is a self-collision. The
  check compares the new head with the whole snapshot, the tail included.
- The reversal test compares the request with the heading of the current
  frame only; two turns in two frames between movement steps reverse the
  snake, and the following step collides with the neck
  (`ScenarioTwoFrameReversal`).
- `game_over` does not reset `LastTailPosition` and does not drain the
  growth signals. The model keeps both across a reset. A growth signal still
  queued after the reset then puts a segment of the new snake on the old
  tail cell, which can lie far from its body (`ScenarioStaleTailAfterReset`).

## Model

| member | source | states |
|---|---|---|
| `Grid.Direction.Opposite` | src/main.rs:34-43 | no heading is its own reverse, and the reverse of a horizontal heading is horizontal |
| `Grid.OppositeInvolution` | src/main.rs:35-42 | reversing twice gives back the heading; `d` is the unique heading whose reverse is `d.Opposite()` |
| `Grid.Step` | src/main.rs:183-188 | the head moves to an adjacent cell (Manhattan distance 1): x grows for Right and shrinks for Left, y grows for Up and shrinks for Down, and a horizontal step keeps y |
| `Grid.StepBack` | src/main.rs:183-188 | a step followed by a step along the reverse heading returns to the start cell, and no other heading does |
| `Grid.HitsWallIffOutside` | src/main.rs:190-196 | for i32 coordinates, the wall test as written (sign tests, then `as u32` comparisons against 10) fires exactly when the cell lies outside [0,10) x [0,10) |
| `Grid.CastAloneRejectsNegative` | src/main.rs:190-193 | a negative i32 read as u32 is at least 2^31, so at least 10 |
| `Grid.ShortCircuitChangesNoVerdict` | src/main.rs:190-193 | for i32 coordinates, the wall test as written (with `as u32` read as the low 32 bits) gives exactly the verdict of its two unsigned comparisons alone, so the sign tests only short-circuit the casts |
| `Input.Selected` | src/main.rs:227-237 | with no key held the request is the current heading; otherwise it is a held key, and no held key has better precedence (Left, Right, Down, Up) |
| `Input.PrecedenceWins` | src/main.rs:227-234 | of two held keys, the one of worse precedence is never selected |
| `Input.Resolve` | src/main.rs:239-241 | the new heading is never the reverse of the old; it is the request when the request is not a reversal, and otherwise the old heading |
| `Input.ReversalRejected` | src/main.rs:239-241 | a request for the reverse heading leaves the heading unchanged |
| `Food.Uneaten` | src/main.rs:158-164 | after eating, no food is left on the head's cell and every remaining food was on the board before |
| `Food.UneatenCounts` | src/main.rs:158-164 | every other cell keeps exactly as many foods as it had, and the number removed is the number on the head's cell |
| `Food.EatenCount` | src/main.rs:158-164 | one food gone per food on the head's cell; the board is unchanged exactly when no food lay on the head's cell |
| `Food.UneatenNoMatch` | src/main.rs:158-164 | with no food on the head's cell, eating leaves the board as it was |
| `Food.UneatenIdempotent` | src/main.rs:158-164 | a second eating pass on the same cell removes nothing more |
| `Game.TrailFromSnapshot` | src/main.rs:203-208 | after the shift, with or without the appended tail cell, every segment behind the head holds a cell of the pre-move snapshot |
| `Game.SnakeGame.constructor` | src/main.rs:112-133 | start-up state: snake exactly [(3,3), (3,2)] heading Up, no food, no recorded tail, no signals; the state is in play |
| `Game.SnakeGame.Steer` | src/main.rs:225-243 | the heading becomes `Resolve(old heading, keys)`, so it is never turned round within one frame; nothing else changes |
| `Game.SnakeGame.Move` | src/main.rs:168-210 | the length is kept; the new head is the old head stepped along the heading; segment i takes the old cell of segment i-1; the old tail cell is recorded; one game-over signal for the wall test and one for landing on any pre-move cell, the tail included; heading, food and growth signals unchanged |
| `Game.SnakeGame.Eat` | src/main.rs:152-166 | the food list becomes `Uneaten(food, head)`, and one growth signal is added per food that was on the head's cell |
| `Game.SnakeGame.Grow` | src/main.rs:212-223 | with a signal pending, exactly one segment is appended at the recorded tail cell, earlier segments are kept and one signal is read; with none, nothing changes |
| `Game.SnakeGame.GameOver` | src/main.rs:245-259 | with a signal pending, one signal is read and the state becomes no food, snake [(3,3), (3,2)] and heading Up, however many signals were queued; with none, nothing changes |
| `Game.SnakeGame.SpawnFood` | src/main.rs:276-292 | one food is added at the given cell and whether the state is in play is unchanged |
| `Game.SnakeGame.MoveAndFeed` | src/main.rs:96-98 | movement, then eating on the new head, then growth: exactly one game-over signal is pending when the step collides and none otherwise; without a collision the snake stays in the arena and its head is on a cell no other segment holds |
| `Game.SnakeGame.Tick` | src/main.rs:93-102 | one pass with the movement timer firing keeps the state in play and the head on its own cell; a colliding step ends with the start snake, heading Up and no food, while the recorded tail cell and any unread growth signal carry over; any other step gives the resolved heading, the moved snake, the food left by eating and at most one grown segment at the old tail cell; the tail cell and growth-signal count are stated in both cases |

## Left out

- Rendering is not modelled: `position_translation`, `size_scaling`, `setup_camera`, `Size` and the colours. These are floating-point view code with no game logic.
- The random draw in `food_spawner` is not modelled. `SpawnFood` takes the cell from its caller and requires it to lie in the arena, as the scaled draw of `[0, 1)` by 10 always does.
- Timers and the app wiring in `main` are not modelled. `Tick` covers a pass in which the movement timer fires. A pass without movement is the same sequence of calls with `Move` left out (see the next line for when `Grow` can then be called), and a food-timer pass adds a `SpawnFood` call after the rest. The food then becomes visible to eating only in the next pass, as the engine's deferred commands make it.
- Engine internals are not modelled: deferred `Commands`, entity ids, queries, and the branches taken when no head entity exists. Segments are a list of positions. In the model the snake always exists, because the reset is atomic.
- Tick: the engine leaves the order of `game_over` against `snake_eating` and `snake_growth` open. `Tick` runs game over last, which is one of the admissible orders. In an order where growth runs after the reset, a pending growth signal would lengthen the respawned snake. That order is not covered.
- Grow: in a pass without movement, `Grow` needs a recorded tail cell whenever a growth signal is pending. Every movement step records one and nothing clears it, so this holds after the first step. Before that step, a food placed on the head's cell would make that pass's growth panic in the source. The program never gets there because the food timer (1 s) first fires after the movement timer (0.15 s) has fired. The model has no timer periods, so `InPlay` does not capture this ordering.
- Grow: the panic of `unwrap` on an empty `LastTailPosition` is not modelled as a state. The precondition `pendingGrowth > 0 ==> lastTail.Some?` excludes it. `Tick` always meets that precondition because movement runs first.
- The engine drops events that stay unread for two frame updates. The signal counters keep every unread signal until it is read.
- Coordinates are unbounded integers, not i32. Overflow cannot happen from a state in play: `InPlay` keeps every cell in the arena, so a new head stays within one cell of it. `HitsWallIffOutside` is stated for the i32 range.
- `Vec::contains` on the snapshot is modelled as sequence membership.
