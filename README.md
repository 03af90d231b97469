# Snake game state, modelled in Dafny

This project models the game logic of a small Snake game (`the_snake.py`). The board is a 32 x 24 grid of cells whose edges wrap around, so it is a torus. The snake is a list of cells, head first, with a direction of travel. Each tick the snake moves one cell and wraps at the edges. When its new head lands on the apple, it grows by a copy of its last segment and the apple is placed anew on some cell of the board. That may be the same cell, or one under the snake. Arrow keys turn the snake, except that a 180-degree reversal is refused. Closing the window, Escape or `q` ends the game.

The modules follow the game's components:

- `Grid` (`grid.dfy`) holds the screen and cell constants, the grid size they give (32 x 24), the four direction vectors, the centre start cell (16, 12) and `Step`. `Step` is the wrap-around move `((x + dx) % 32, (y + dy) % 24)`.
- `Entities` (`entities.dfy`) holds the classes `Apple` and `Snake`, whose methods update their fields in place. It also holds pure functions and lemmas about them. `Steer` and `Moved` specify the snake's operations: the reversal guard and one move of the body. `Grown` specifies the growth done in `Game.Tick`. `MovedTimes` and `MovedAlong` describe runs of moves: a straight one, and one whose direction may change every tick.
- `Input` (`input.dfy`) holds the abstract events and `HandleKeys`, the loop over one poll's events with its early return. `KeysOutcome` is the function that specifies that loop. Two lemmas connect it to an independent description: "apply every arrow key before the first quit event, in order".
- `Game` (`game.dfy`) holds `Tick`, which is the body of the main loop after input (move, eat check, grow, relocate the apple). It also holds `Play`, the main loop itself, run over a finite sequence of polls.

Modelling decisions:

- The game's `%` has a positive modulus, so its result is never negative. Dafny's `%` gives the same result, so `Step` uses it directly.
- A direction is a pair of integers, as in the source: `update_direction` accepts any pair. The four unit directions are singled out by `IsDirection`. As long as every turn request is one of the four, the snake keeps facing one of them. `HandleKeys` only ever sends such requests (`ArrowDirection`, `OutcomeIsDirection`).
- The snake's object invariant `Valid()` says three things. The body is non-empty. `position` mirrors the head. Every cell is on the board.
- Growth is the tail copy of the_snake.py:146: a copy of the last segment is appended right after the move. There is no pending-growth flag.

## Model

| member | source | states |
|---|---|---|
| `Grid.Dimensions` | the_snake.py:9-15 | the grid is 32 cells wide and 24 high; the centre start cell is (16, 12) and lies on the board |
| `Grid.Opposite` | the_snake.py:81 | the reversal of one of the four directions is again one of them, and differs from it |
| `Grid.Step` | the_snake.py:89 | the wrapped next head is always on the board, whatever the direction vector |
| `Grid.StepIsEdgeWrap` | the_snake.py:89 | from a cell on the board, a unit step lands on the neighbouring cell; leaving past the far edge re-enters at 0 (for example (31, y) moving right gives (0, y)), and leaving past 0 re-enters at the far edge |
| `Entities.Steer` | the_snake.py:79-83 | the new direction is the requested one exactly when the request is not the reversal of the current direction, and otherwise the current one; the result is never the reversal; requests among the four directions keep the direction among them |
| `Entities.Moved` | the_snake.py:85-95 | one move keeps the length; the new head is the wrapped step of the old head; every other segment takes the place of the one in front of it (`r[1..]` is the old body without its last cell); a body on the board stays on the board |
| `Entities.Grown` | the_snake.py:146 | growing adds exactly one segment; the old cells are kept in order and the new last cell equals the previous last cell; the head and the in-bounds property are unchanged |
| `Entities.MovedTimes` | the_snake.py:85-95 | any number of moves along one direction, with no turn and without eating, keeps the length and keeps the body on the board |
| `Entities.MovedAlong` | the_snake.py:85-95 | any number of moves without eating, each tick in a direction of its own, keeps the length and keeps the body on the board |
| `Entities.StraightRunIsMovedAlong` | the_snake.py:85-95 | a straight run of n moves is the run whose every tick has that one direction |
| `Entities.TrailsAlong` | the_snake.py:91-95 | after n moves along directions ds (one per tick, n of them), segment i (for i >= n) is where segment i - n was, whatever the turns |
| `Entities.FollowsHeadPath` | the_snake.py:91-95 | after n moves along directions ds (one per tick, n of them), segment k (for k < n) is where the head was k ticks earlier: the body follows the path of its head, turns included |
| `Entities.StraightRunRight` | the_snake.py:85-95 | a one-cell snake facing right at (x, y) is at ((x + n) mod 32, y) after n moves |
| `Entities.SixteenMovesWrap` | the_snake.py:68-95 | a new snake (at (16, 12), facing right) is at (0, 12) after sixteen moves, having wrapped round the right edge |
| `Entities.Apple.constructor` | the_snake.py:52-55 | a new apple lies on a cell of the board |
| `Entities.Apple.RandomizePosition` | the_snake.py:57-62 | the apple moves to some cell of the board; any cell may be chosen, the snake's included |
| `Entities.Snake.constructor` | the_snake.py:68-73 | a new snake is the single cell (16, 12), faces right, and its `position` is its head |
| `Entities.Snake.Head` | the_snake.py:75-77 | the head equals the mirrored `position` and lies on the board |
| `Entities.Snake.UpdateDirection` | the_snake.py:79-83 | the direction becomes `Steer(old direction, request)`: it is taken unless it is the reversal; the body and `position` are unchanged |
| `Entities.Snake.Move` | the_snake.py:85-95 | the body becomes `Moved(old body, direction)`: same length, new head the wrapped step, the rest the old body without its last cell; `position` mirrors the new head; the direction is unchanged |
| `Entities.Snake.Reset` | the_snake.py:97-99 | the snake is back to the single cell (16, 12), facing right, with `position` at the head |
| `Input.ArrowDirection` | the_snake.py:115-122 | each arrow key asks for one of the four directions |
| `Input.Arrows` | the_snake.py:115-122 | the arrow requests of a poll, in event order, are all among the four directions |
| `Input.KeysOutcome` | the_snake.py:107-123 | the quit flag and the direction after handling one poll in event order, stopping at the first quit event (`IsQuit`: a close event, or Escape or `q`, lines 110-114) and turning only on arrow keys (`IsArrow`, lines 115-122); its contract says the direction changes only if the poll holds an arrow key, and a quit needs at least one event; the lemmas below give the rest of its meaning |
| `Input.QuitIffQuitEvent` | the_snake.py:107-123 | handling a poll asks to stop exactly when it holds a window-close event or an Escape or `q` key press |
| `Input.NoQuitAppliesArrows` | the_snake.py:107-123 | without a quit event the handler returns false, and the direction is that of applying every arrow key in event order through the reversal guard |
| `Input.StopsAtFirstQuit` | the_snake.py:109-114 | at the first quit event the handler returns true; only the arrow keys before it are applied, and no later event has any effect |
| `Input.IgnoredEventHasNoEffect` | the_snake.py:112-122 | an event that is neither a quit nor an arrow key changes nothing, wherever it stands in the poll: removing it gives the same outcome |
| `Input.OutcomeIsDirection` | the_snake.py:115-122 | starting from one of the four directions, the snake faces one of them after any poll |
| `Input.HandleKeys` | the_snake.py:107-123 | the loop over the events returns and leaves the direction exactly as `KeysOutcome` says, and the body and `position` are untouched |
| `Game.Tick` | the_snake.py:142-147 | the snake eats exactly when its moved head equals the apple; then the body is the moved body with its last cell doubled (length + 1) and the apple is on the board again; otherwise the body is the moved body (same length) and the apple stays |
| `Game.Play` | the_snake.py:133-147 | the loop stops at the first poll holding a quit event, before that tick's move, or when the polls run out; no earlier poll held a quit; the final length is one more than the apples eaten, but that is an identity between the loop's own counters, and `Game.Tick` carries the per-tick promise about eating; the snake ends facing one of the four directions |

## Left out

- Drawing: `draw_rect`, the `draw` methods, filling the screen and flipping the display. This is graphics output.
- Window creation, `pygame.init` and `pygame.quit`. This is library set-up and tear-down.
- The colours, including the colour field of the `GameObject` base class. They have no effect on behaviour. Without them, the base class is only its `position`, which each class keeps itself.
- `clock.tick(8)`. Pacing has no effect on the game state.
- Polling with `pygame.event.get()`. Each poll's events are a parameter: a sequence of `Input.Event` values.
- `Game.Play`: the source's `while True` loop runs until a quit. The model runs over a finite sequence of polls and also stops when they run out.
- `Game.Tick`: its `ate` result is not in the source. It only reports which branch was taken.
- `Game.Play`: its `ticks`, `eaten`, `length` and `facing` results are the model's own, because `main()` returns nothing. They exist so that the loop's contract can state what it does.
- `Entities.Apple.RandomizePosition`: it states only that the new cell is on the board, not that it is drawn uniformly at random. `random.randint` is outside the model, and the choice is arbitrary instead.
