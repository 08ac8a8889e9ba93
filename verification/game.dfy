/**
 The Snake game state and the transitions the script performs on it: the
 one-tick update, the direction buttons, and the initial and "Start Game"
 states. The head of the snake is the first element of its body.
 */
module SnakeGame {
  import opened Grid
  import opened Counting
  import opened Food

  /** Length of the body every game starts with. */
  const InitialLength: nat := 3

  /** The body every game starts with: head (10, 10), tail (10, 12). */
  const InitialSnake: seq<Cell> := [(10, 10), (10, 11), (10, 12)]

  const InitialDirection: Direction := Left

  /** The session state the game keeps between reruns. */
  datatype Game = Game(
    snake: seq<Cell>,
    food: Cell,
    direction: Direction,
    score: nat,
    running: bool)

  /**
   What holds of every state the game reaches: the body is on the board and
   has no repeated cell, the food is on the board and off the body, and the
   body has grown by exactly one cell per point scored.
   */
  predicate Valid(g: Game) {
    && |g.snake| == InitialLength + g.score
    && AllInBounds(g.snake)
    && Distinct(g.snake)
    && InBounds(g.food)
    && g.food !in g.snake
  }

  /** A collision: the new head is already in the body (tail included) or off the board. */
  predicate Collides(snake: seq<Cell>, head: Cell) {
    head in snake || !InBounds(head)
  }

  /** The cell the head moves to on the next tick. */
  function NextHead(g: Game): Cell
    requires |g.snake| > 0
  {
    MoveSnake(Name(g.direction), g.snake)
  }

  /** The next tick moves the head onto the food without colliding. */
  predicate WillEat(g: Game)
    requires |g.snake| > 0
  {
    g.running && !Collides(g.snake, NextHead(g)) && NextHead(g) == g.food
  }

  /**
   One tick. `newFood` is the cell `place_food` returns when the snake eats;
   it is not looked at otherwise. A stopped game does not tick.
   */
  function Step(g: Game, newFood: Cell): (g': Game)
    requires |g.snake| > 0
    ensures |g'.snake| > 0
    ensures g'.direction == g.direction
    ensures g'.running <==> g.running && !Collides(g.snake, NextHead(g))
    ensures !g'.running ==> g'.snake == g.snake && g'.food == g.food && g'.score == g.score
    ensures g'.running ==> g'.snake[0] == NextHead(g) && g'.snake[1..] <= g.snake
    ensures g'.score >= g.score
    ensures g'.score == g.score + 1 <==> WillEat(g)
    ensures |g'.snake| == |g.snake| + (g'.score - g.score)
    ensures g'.running && !WillEat(g) ==> g'.food == g.food
    ensures WillEat(g) ==> g'.food == newFood
  {
    if !g.running then g
    else
      var head := NextHead(g);
      if Collides(g.snake, head) then
        g.(running := false)
      else if head == g.food then
        g.(snake := [head] + g.snake, food := newFood, score := g.score + 1)
      else
        g.(snake := [head] + g.snake[..|g.snake| - 1])
  }

  /**
   A direction button: the stored heading becomes the pressed one unless the
   pressed one is the exact opposite of the stored heading.
   */
  function Press(current: Direction, button: Direction): (d: Direction)
    ensures button == Opposite(current) ==> d == current
    ensures button != Opposite(current) ==> d == button
    ensures d != Opposite(current)
  {
    match button
    case Left => if current != Right then Left else current
    case Up => if current != Down then Up else current
    case Down => if current != Up then Down else current
    case Right => if current != Left then Right else current
  }

  /** A button press applied to the game: only the heading may change. */
  function Turn(g: Game, button: Direction): (g': Game)
    ensures g'.direction == Press(g.direction, button)
    ensures g'.(direction := g.direction) == g
  {
    g.(direction := Press(g.direction, button))
  }

  /** The state both the first run and "Start Game" set up, given the food `place_food` chose. */
  function NewGame(food: Cell, running: bool): Game {
    Game(InitialSnake, food, InitialDirection, 0, running)
  }

  /** Any free cell for the food makes the new game valid. */
  lemma NewGameValid(food: Cell, running: bool)
    requires Free(InitialSnake, food)
    ensures Valid(NewGame(food, running))
    ensures NewGame(food, running).running == running
  {
  }

  /** The first run of the script: a stopped game with food off the initial body. */
  method Initial() returns (g: Game)
    ensures Valid(g)
    ensures g.snake == InitialSnake && g.direction == Left && g.score == 0
    ensures !g.running
  {
    assert Free(InitialSnake, (0, 0));
    var food := PlaceFood(InitialSnake);
    g := NewGame(food, false);
  }

  /** "Start Game": whatever the old state, a running game with food off the initial body. */
  method Start() returns (g: Game)
    ensures Valid(g)
    ensures g.snake == InitialSnake && g.direction == Left && g.score == 0
    ensures g.running
  {
    assert Free(InitialSnake, (0, 0));
    var food := PlaceFood(InitialSnake);
    g := NewGame(food, true);
  }

  /** The body after growing: the new head in front of the whole old body. */
  function Grown(g: Game): seq<Cell>
    requires |g.snake| > 0
  {
    [NextHead(g)] + g.snake
  }

  /** A food choice that `place_food` could make for this tick. */
  predicate FoodChoiceOk(g: Game, newFood: Cell)
    requires |g.snake| > 0
  {
    WillEat(g) ==> Free(Grown(g), newFood)
  }

  /**
   Every tick keeps the state valid, provided the food chosen when the snake
   eats is off the grown body (which `place_food` guarantees).
   */
  lemma StepPreservesValid(g: Game, newFood: Cell)
    requires Valid(g)
    requires FoodChoiceOk(g, newFood)
    ensures Valid(Step(g, newFood))
  {
  }

  /**
   The cells the body covers after a tick: on a plain move the tail cell is
   given up and the new head taken, on an eating move the new head is added,
   and on a collision or a stopped game nothing changes.
   */
  lemma StepOccupied(g: Game, newFood: Cell)
    requires Valid(g)
    ensures var g' := Step(g, newFood);
      && (g'.running && !WillEat(g) ==>
            Occupied(g'.snake) == Occupied(g.snake) - {g.snake[|g.snake| - 1]} + {NextHead(g)})
      && (WillEat(g) ==> Occupied(g'.snake) == Occupied(g.snake) + {NextHead(g)})
      && (!g'.running ==> Occupied(g'.snake) == Occupied(g.snake))
  {
  }

  /**
   The tick as the script runs it: move, and when the snake eats, ask
   `place_food` for a cell off the grown body. The board must not become full
   by eating, since `place_food` would then never return.
   */
  method Tick(g: Game) returns (g': Game)
    requires Valid(g)
    requires WillEat(g) ==> |g.snake| + 1 < GridSize * GridSize
    ensures Valid(g')
    ensures g' == Step(g, g'.food)
  {
    if WillEat(g) {
      var grown := Grown(g);
      FreeCellExists(grown);
      var food := PlaceFood(grown);
      g' := Step(g, food);
      StepPreservesValid(g, food);
    } else {
      g' := Step(g, g.food);
      StepPreservesValid(g, g.food);
    }
  }

  /**
   Moving into the cell the tail occupies ends the game, although that cell
   would be vacated by the same move: the membership test runs before the
   tail is dropped.
   */
  lemma MovingIntoTailCollides(g: Game, newFood: Cell)
    requires |g.snake| > 0 && g.running
    requires NextHead(g) == g.snake[|g.snake| - 1]
    ensures Step(g, newFood) == g.(running := false)
  {
  }

  /** A valid running state in which the next move goes into the tail cell. */
  lemma TailCollisionExample()
    ensures var g := Game([(10, 10), (10, 11), (11, 11), (11, 10)], (0, 0), Down, 1, true);
      && Valid(g)
      && NextHead(g) == g.snake[|g.snake| - 1]
      && Step(g, (0, 0)) == g.(running := false)
  {
  }

  /**
   Right after a successful tick the stored heading is the one the head just
   moved in: the neck lies one cell behind the head.
   */
  lemma StepRecordsHeading(g: Game, newFood: Cell)
    requires Valid(g)
    ensures var g' := Step(g, newFood);
      g.running && g'.running ==> g'.snake[1] == Translate(g'.snake[0], Opposite(g.direction))
  {
  }

  /** Heading straight back at the neck is always a collision. */
  lemma ReversalCollides(g: Game)
    requires Valid(g)
    requires g.snake[1] == Translate(g.snake[0], g.direction)
    ensures Collides(g.snake, NextHead(g))
  {
  }

  /** A single press of the opposite button leaves the heading as it was. */
  lemma OppositePressIgnored(g: Game)
    ensures Turn(g, Opposite(g.direction)) == g
  {
  }

  /**
   The guard compares with the stored heading, not the heading last moved in,
   so two presses between ticks can still reverse the snake onto its neck.
   */
  lemma TwoPressesCanReverse()
    ensures var g := NewGame((0, 0), true);
      var turned := Turn(Turn(g, Up), Right);
      && Valid(g)
      && turned.direction == Opposite(g.direction)
      && !Step(turned, (0, 0)).running
  {
  }
}
