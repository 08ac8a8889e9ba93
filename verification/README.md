# Snake game core in Dafny

This project models the game logic of the single-file Streamlit Snake game
(`snake.py`). The board is a 20 x 20 grid (`GRID_SIZE`) of `(row, col)` cells.
The snake is a list of cells with its head first. Food sits on a free cell.
The session state also holds a direction string, a score and a `running` flag.
On each due tick the script does the following:

- it computes the new head with `move_snake`;
- it ends the game if the new head is in the body or off the board;
- otherwise it puts the new head in front;
- if the new head is the food, it places new food with `place_food` and scores
  a point;
- if not, it drops the tail.

Four direction buttons change the stored direction, unless the request is the
exact opposite of it. The first run and "Start Game" both set up the same
three-cell snake heading left.

Modules:

- `Grid` (`grid.dfy`): cells, bounds, headings, and `move_snake` as `MoveSnake`.
- `Counting` (`counting.dfy`): cardinality facts. They show that a body
  without repeats that is shorter than the board leaves a free cell.
- `Food` (`food.dfy`): `place_food` as a method that returns an arbitrary free
  cell.
- `SnakeGame` (`game.dfy`): the state `Game` and its invariant `Valid`.
  - `Step` is the tick as a pure function. The cell `place_food` would return
    is passed in as a parameter.
  - `Tick` is the tick as the script runs it, calling `PlaceFood`.
  - `Press` and `Turn` are the button guard.
  - `NewGame`, `Initial` and `Start` build the initial and reset states.
- `Session` (`session.dfy`): a session is a sequence of events: "Start Game",
  a button, or a due tick. Each event that calls `place_food` carries the cell
  it returned. The module proves that every reachable state is valid.

`Valid` is the invariant. It requires all of the following:

- every body cell is on the board;
- no body cell repeats;
- the food is on the board and not in the body;
- the body length is `3 + score`, so length and score change in lock-step.

Notes on the code's behaviour:

- Moving into the current tail cell is a collision. The membership test runs
  before the tail is dropped (`MovingIntoTailCollides`; `TailCollisionExample`
  shows a valid state where this happens).
- The direction guard compares the request with the stored direction, not
  with the direction the snake last moved in. Two presses between ticks can
  turn the snake back onto its neck (`TwoPressesCanReverse`). The model does
  not claim that reversal is prevented.
- A stopped game does not tick. `Step` returns the state unchanged when
  `running` is false, because the script skips the whole update block. No
  error is raised.

## Model

| member | source | states |
|---|---|---|
| Grid.MoveSnake | snake.py:40-50 | each heading name moves the head one cell: UP row-1, DOWN row+1, LEFT col-1, RIGHT col+1; the result is adjacent (one coordinate changes, by exactly 1); an unrecognised string leaves the head where it is |
| Grid.OppositeUndoesTranslate | snake.py:82-91 | the opposite pairs the guard uses (LEFT/RIGHT, UP/DOWN) are involutive, never a heading itself, and moving in a heading then its opposite returns to the start cell |
| Grid.TranslateInjective | snake.py:40-50 | two headings move the head to the same cell exactly when they are the same heading |
| Food.PlaceFood | snake.py:52-56 | the returned cell has both coordinates in [0, 20) and is not in the snake; a free cell must exist, because the retry loop never ends on a full board |
| Counting.FreeCellExists | snake.py:52-56 | a body on the board with no repeats and fewer than 400 cells leaves a free cell, so `place_food` terminates |
| Counting.FullBoardHasNoFreeCell | snake.py:52-56 | a body of 400 distinct on-board cells leaves no free cell, which is the case where `place_food` loops forever |
| SnakeGame.Step | snake.py:98-114 | the game keeps running exactly when it was running and the new head neither is in the body nor off the board; on collision body, food and score are unchanged; otherwise the new body is the new head followed by a prefix of the old body; the score rises by 1 exactly when the head lands on the food without collision, and the length grows by the same amount; a plain move keeps the food, an eating move stores the cell `place_food` returned; the heading is untouched |
| SnakeGame.StepPreservesValid | snake.py:102-112 | a tick keeps cells on the board, keeps them pairwise distinct, keeps food off the body and keeps length = 3 + score, given a valid state and a food cell off the grown body |
| SnakeGame.StepOccupied | snake.py:102-112 | as a set of cells: a plain move gives up the old tail cell and takes the new head; an eating move adds the new head; a collision or a stopped game changes nothing |
| SnakeGame.Tick | snake.py:98-114 | the tick with `place_food` called on the grown body is a `Step` whose food argument is the resulting food, and it yields a valid state; eating must not fill the board |
| SnakeGame.MovingIntoTailCollides | snake.py:102-112 | for every running game, moving the head into the current tail cell ends the game with body, food, score and heading unchanged, although the pop at line 112 would have freed that cell |
| SnakeGame.TailCollisionExample | snake.py:102-112 | an example: a valid running four-cell game whose next move goes into the tail cell, and that move ends the game |
| SnakeGame.StepRecordsHeading | snake.py:99-112 | after a successful tick the neck lies one cell behind the head, opposite the stored heading |
| SnakeGame.ReversalCollides | snake.py:99-105 | heading straight at the neck is always a collision |
| SnakeGame.Press | snake.py:82-91 | a button press that is the opposite of the stored heading leaves it unchanged; any other press sets it; the result is never the opposite of the stored heading |
| SnakeGame.Turn | snake.py:82-91 | a button press changes only the heading of the game state |
| SnakeGame.OppositePressIgnored | snake.py:82-91 | pressing the opposite of the stored heading leaves the whole state unchanged |
| SnakeGame.TwoPressesCanReverse | snake.py:82-91 | from the started game (heading LEFT), pressing UP then RIGHT between ticks sets the heading to RIGHT, and the next tick collides with the neck |
| SnakeGame.NewGameValid | snake.py:60-64 | the initial body (10,10),(10,11),(10,12) heading LEFT with score 0 is valid for any food cell off that body |
| SnakeGame.Initial | snake.py:59-64 | the first run yields a valid, stopped game with the initial body, heading LEFT and score 0 |
| SnakeGame.Start | snake.py:71-77 | "Start Game" yields a valid, running game with the initial body, heading LEFT and score 0, whatever the old state |
| Session.Apply | snake.py:71-114 | one rerun: "Start Game" yields the initial body, heading LEFT, score 0, running, with the given food; a button sets the heading to the guarded result and changes nothing else; a due tick is one `Step`, keeps the heading, never lowers the score and never restarts a stopped game |
| Session.Run | snake.py:71-114 | the events applied in order keep the body non-empty; a session of button presses only changes nothing but the heading |
| Session.RunAppend | snake.py:71-114 | running two sessions one after the other is the same as running their concatenation |
| Session.ApplyPreservesValid | snake.py:71-114 | "Start Game", a button press and a due tick each keep a valid state valid, given a food choice `place_food` could make |
| Session.RunPreservesValid | snake.py:71-114 | any sequence of such events keeps a valid state valid |
| Session.ReachableValid | snake.py:59-114 | every state reachable from the first run is valid |
| Session.ScoreNeverDecreases | snake.py:108-110 | without "Start Game" the score never decreases over a sequence of events, and a stopped game stays stopped |

## Left out

- `draw_board` and all image drawing (snake.py:12-38) are left out because they are rendering only.
- The Streamlit wiring is left out because it is framework I/O: title, difficulty selectbox, buttons, columns, `st.write`, `st.image` and the rerun. Only the guard logic of the button handlers is modelled. In a rerun a single button is pressed; each press is one `Press` call.
- Timing is left out: `time.time()`, `last_update` and the floating-point `SPEED_MAP` intervals. The model only defines what one due tick does, not when ticks fall due.
- The distribution of `random.randint` is left out. `PlaceFood` returns an arbitrary free cell, and `Step` takes the chosen cell as a parameter.
- The unbounded retry loop of `place_food` is left out. The model requires a free cell to exist. `Tick` requires that eating does not fill the board (400 cells), because the script would hang there.
- Food.PlaceFood: does not promise termination on a full board, because the source does not terminate there.
- A turn-based token board game appears in a description of the wider repository. It is not part of `snake.py` and is not modelled.
- Python's `IndexError` on an empty snake in `move_snake` is left out. `MoveSnake` and `Step` require a non-empty body, and every reachable state has at least three cells.
