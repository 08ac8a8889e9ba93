/**
 A play session as a sequence of events the script reacts to across reruns:
 "Start Game", a direction button, and a tick that falls due. The food cell a
 `place_food` call would return travels with the event that calls it.
 */
module Session {
  import opened Grid
  import opened Counting
  import opened SnakeGame

  datatype Event =
    | StartGame(food: Cell)
    | Button(pressed: Direction)
    | TickDue(food: Cell)

  /**
   What one rerun does with an event: "Start Game" replaces the whole state,
   a button changes only the heading, a due tick is one `Step`.
   */
  function Apply(g: Game, e: Event): (g': Game)
    requires |g.snake| > 0
    ensures |g'.snake| > 0
    ensures e.StartGame? ==>
      && g'.snake == InitialSnake && g'.food == e.food && g'.direction == Left
      && g'.score == 0 && g'.running
    ensures e.Button? ==>
      g'.direction == Press(g.direction, e.pressed) && g'.(direction := g.direction) == g
    ensures e.TickDue? ==>
      && g' == Step(g, e.food)
      && g'.direction == g.direction && g'.score >= g.score && (g'.running ==> g.running)
  {
    match e
    case StartGame(food) => NewGame(food, true)
    case Button(d) => Turn(g, d)
    case TickDue(food) => Step(g, food)
  }

  /** The food an event carries is one `place_food` could have returned. */
  predicate Legal(g: Game, e: Event)
    requires |g.snake| > 0
  {
    match e
    case StartGame(food) => Free(InitialSnake, food)
    case Button(_) => true
    case TickDue(food) => FoodChoiceOk(g, food)
  }

  /** The events applied in order. Button presses alone change nothing but the heading. */
  function Run(g: Game, es: seq<Event>): (g': Game)
    requires |g.snake| > 0
    ensures |g'.snake| > 0
    ensures (forall i :: 0 <= i < |es| ==> es[i].Button?) ==> g'.(direction := g.direction) == g
    decreases |es|
  {
    if es == [] then g else Run(Apply(g, es[0]), es[1..])
  }

  predicate LegalRun(g: Game, es: seq<Event>)
    requires |g.snake| > 0
    decreases |es|
  {
    es == [] || (Legal(g, es[0]) && LegalRun(Apply(g, es[0]), es[1..]))
  }

  predicate NoStart(es: seq<Event>) {
    forall i :: 0 <= i < |es| ==> !es[i].StartGame?
  }

  /** Every event keeps the state valid when its food choice is legal. */
  lemma ApplyPreservesValid(g: Game, e: Event)
    requires Valid(g) && Legal(g, e)
    ensures Valid(Apply(g, e))
  {
  }

  /** Any session of legal events keeps the state valid. */
  lemma {:induction false} RunPreservesValid(g: Game, es: seq<Event>)
    requires Valid(g) && LegalRun(g, es)
    ensures Valid(Run(g, es))
    decreases |es|
  {
    if es != [] {
      ApplyPreservesValid(g, es[0]);
      RunPreservesValid(Apply(g, es[0]), es[1..]);
    }
  }

  /** Every state reachable from the first run is valid. */
  lemma ReachableValid(food: Cell, es: seq<Event>)
    requires Free(InitialSnake, food)
    requires LegalRun(NewGame(food, false), es)
    ensures Valid(Run(NewGame(food, false), es))
  {
    NewGameValid(food, false);
    RunPreservesValid(NewGame(food, false), es);
  }

  /** Without "Start Game" the score never goes down, and a stopped game stays stopped. */
  lemma {:induction false} ScoreNeverDecreases(g: Game, es: seq<Event>)
    requires |g.snake| > 0
    requires NoStart(es)
    ensures Run(g, es).score >= g.score
    ensures !g.running ==> !Run(g, es).running
    decreases |es|
  {
    if es != [] {
      var g1 := Apply(g, es[0]);
      assert !es[0].StartGame?;
      assert NoStart(es[1..]) by {
        forall i | 0 <= i < |es[1..]| ensures !es[1..][i].StartGame? {
          assert es[1..][i] == es[i + 1];
        }
      }
      ScoreNeverDecreases(g1, es[1..]);
    }
  }

  /** Running two sessions back to back is running their concatenation. */
  lemma {:induction false} RunAppend(g: Game, a: seq<Event>, b: seq<Event>)
    requires |g.snake| > 0
    ensures Run(g, a + b) == Run(Run(g, a), b)
    decreases |a|
  {
    if a != [] {
      assert (a + b)[0] == a[0];
      assert (a + b)[1..] == a[1..] + b;
      RunAppend(Apply(g, a[0]), a[1..], b);
    } else {
      assert a + b == b;
    }
  }
}
