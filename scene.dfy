/** The game logic embedded in the SpriteKit scene: a 20 x 20 board, the
    snake stepped one cell per completed step interval, turn requests written
    straight into `direction`, food respawned on eating, a score of 10 per food.
 */
module Scene {
  import opened Board

  const Columns: nat := 20
  const Rows: nat := 20
  /** The literal start cell of the field initialiser. */
  const Start := Point(10, 10)
  /** The cell food goes to when no cell is free. */
  const Fallback := Point(0, 0)
  const FoodScore := 10

  /** The four vectors the buttons and arrow keys pass in. */
  const Up := Vector(0, 1)
  const Down := Vector(0, -1)
  const Left := Vector(-1, 0)
  const Right := Vector(1, 0)

  /** Every field of the scene's game state; `stepProgress` is the fraction of
      the current step interval already elapsed. */
  datatype SceneState = SceneState(
    snake: seq<Point>,
    direction: Vector,
    food: Point,
    score: int,
    isGameOver: bool,
    previousSnake: seq<Point>,
    stepProgress: real)

  /** What every reachable state satisfies: a well-formed body on the board,
      food placed, and 10 points for every segment grown beyond the head. */
  ghost predicate Invariant(s: SceneState)
  {
    WellFormedBody(s.snake, Columns, Rows) &&
    FoodPlaced(s.snake, s.food, Columns, Rows) &&
    s.score == FoodScore * (|s.snake| - 1)
  }

  function NewHead(s: SceneState): Point
    requires |s.snake| > 0
  {
    Shift(s.snake[0], s.direction)
  }

  // ---------------------------------------------------------------------------
  // logicalStep
  // ---------------------------------------------------------------------------

  /** The state after `logicalStep`. */
  function Stepped(s: SceneState, choice: nat): (r: SceneState)
    requires |s.snake| > 0
    requires EatChoiceOk(s.snake, NewHead(s), s.food, choice, Columns, Rows)
    ensures r.direction == s.direction && r.previousSnake == s.previousSnake && r.stepProgress == s.stepProgress
    // a wall hit, checked first: game over, nothing else changes
    ensures !InBounds(NewHead(s), Columns, Rows) ==> r == s.(isGameOver := true)
    // a hit on any current segment, the tail included: game over, nothing else changes
    ensures NewHead(s) in s.snake ==> r == s.(isGameOver := true)
    // eating: one segment longer, the old body kept behind the new head, 10 points
    ensures InBounds(NewHead(s), Columns, Rows) && NewHead(s) !in s.snake && NewHead(s) == s.food ==>
      r.isGameOver == s.isGameOver && |r.snake| == |s.snake| + 1 &&
      r.snake[0] == NewHead(s) && r.snake[1..] == s.snake && r.score == s.score + FoodScore
    // a plain move: same length, the tail cell dropped, score and food kept
    ensures InBounds(NewHead(s), Columns, Rows) && NewHead(s) !in s.snake && NewHead(s) != s.food ==>
      r.isGameOver == s.isGameOver && |r.snake| == |s.snake| &&
      r.snake[0] == NewHead(s) && r.snake[1..] == s.snake[..|s.snake| - 1] &&
      r.score == s.score && r.food == s.food
  {
    match Advance(s.snake, NewHead(s), s.food, Columns, Rows)
    case HitWall => s.(isGameOver := true)
    case HitSelf => s.(isGameOver := true)
    case Slid(body) => s.(snake := body)
    case Ate(body) =>
      s.(snake := body, score := s.score + FoodScore,
         food := PickFood(EmptyCells(body, Columns, Rows), choice, Fallback))
  }

  /** A step keeps the invariant; after eating, the new food is off the grown
      body unless that body covers the board. */
  lemma SteppedKeepsInvariant(s: SceneState, choice: nat)
    requires Invariant(s)
    requires EatChoiceOk(s.snake, NewHead(s), s.food, choice, Columns, Rows)
    ensures Invariant(Stepped(s, choice))
    ensures Stepped(s, choice).snake != s.snake && !GridFull(Stepped(s, choice).snake, Columns, Rows) ==>
      Stepped(s, choice).food !in Stepped(s, choice).snake
  {
    var o := Advance(s.snake, NewHead(s), s.food, Columns, Rows);
    match o
    case HitWall =>
    case HitSelf =>
    case Slid(body) =>
      SlideKeepsFoodPlaced(s.snake, NewHead(s), s.food, Columns, Rows);
    case Ate(body) =>
      SpawnedFoodPlaced(body, Columns, Rows, choice, Fallback);
  }

  /** A snake curled into a square whose head points at its own tail: the
      tail would have moved away, but the whole current body counts, so the
      step ends the game and the body stays as it was. */
  lemma TailCellCountsAsBody()
    ensures var s := SceneState([Point(1, 1), Point(1, 2), Point(2, 2), Point(2, 1)], Right, Point(5, 5), 30, false, [], 0.0);
      Stepped(s, 0) == s.(isGameOver := true)
  {
  }

  /** At the right edge, moving right ends the game without inserting a head. */
  lemma RightWallEndsGame()
    ensures var s := SceneState([Point(19, 10)], Right, Point(3, 3), 0, false, [], 0.0);
      Stepped(s, 0) == s.(isGameOver := true)
  {
  }

  /** From the start cell, one step right onto an empty cell. */
  lemma FirstStepFromStart()
    ensures var s := SceneState([Start], Right, Point(3, 3), 0, false, [], 0.0);
      Stepped(s, 0) == s.(snake := [Point(11, 10)])
  {
  }

  // ---------------------------------------------------------------------------
  // changeDirection
  // ---------------------------------------------------------------------------

  /** The direction after `changeDirection(requested)`: the request is taken
      when it has a horizontal part and the current direction has none, or a
      vertical part and the current direction has none. */
  function Turned(current: Vector, requested: Vector): (d: Vector)
    ensures d == current || d == requested
    ensures d != current ==> requested != Vector(0, 0)
  {
    if (current.dx == 0 && requested.dx != 0) || (current.dy == 0 && requested.dy != 0) then requested
    else current
  }

  predicate IsUnit(v: Vector)
  {
    v == Up || v == Down || v == Left || v == Right
  }

  function Dot(a: Vector, b: Vector): int
  {
    a.dx * b.dx + a.dy * b.dy
  }

  /** On the four unit directions the rule is "accept exactly the
      perpendicular requests". */
  lemma TurnedAcceptsPerpendicular(current: Vector, requested: Vector)
    requires IsUnit(current) && IsUnit(requested)
    ensures Turned(current, requested) == if Dot(current, requested) == 0 then requested else current
  {
    var d := Dot(current, requested);
    if current == Up || current == Down {
      assert d == current.dy * requested.dy;
    } else {
      assert d == current.dx * requested.dx;
    }
  }

  /** A reversal or a repeat of the current direction is ignored, the result is
      again a unit direction, and it is never the reverse of the current one. */
  lemma TurnedNeverReverses(current: Vector, requested: Vector)
    requires IsUnit(current) && IsUnit(requested)
    ensures requested == current || requested == Negate(current) ==> Turned(current, requested) == current
    ensures IsUnit(Turned(current, requested))
    ensures Turned(current, requested) != Negate(current)
  {
  }

  // ---------------------------------------------------------------------------
  // resetGame (state part; the timer restart is not modelled)
  // ---------------------------------------------------------------------------

  function Reset(s: SceneState, choice: nat): (r: SceneState)
    requires ChoiceFits(choice, EmptyCells([Start], Columns, Rows))
    ensures r.score == 0 && !r.isGameOver && r.direction == Right && r.snake == [Start]
    ensures r.food != Start && InBounds(r.food, Columns, Rows)
    ensures Invariant(r)
    ensures r.previousSnake == s.previousSnake && r.stepProgress == s.stepProgress
  {
    var body := [Point(Columns / 2, Rows / 2)];
    EmptyCellsMembership(body, Columns, Rows, Fallback);
    SpawnedFoodPlaced(body, Columns, Rows, choice, Fallback);
    s.(score := 0, isGameOver := false, direction := Right, snake := body,
       food := PickFood(EmptyCells(body, Columns, Rows), choice, Fallback))
  }

  /** Resetting twice is resetting once. */
  lemma ResetIdempotent(s: SceneState, choice: nat)
    requires ChoiceFits(choice, EmptyCells([Start], Columns, Rows))
    ensures Reset(Reset(s, choice), choice) == Reset(s, choice)
  {
  }

  /** Reset keeps the pre-reset snapshot: until the next step completes, the
      restarted head is drawn blending from the old snapshot's head cell. */
  lemma ResetKeepsSnapshot(s: SceneState, choice: nat)
    requires ChoiceFits(choice, EmptyCells([Start], Columns, Rows))
    requires |s.previousSnake| > 0
    ensures PreviousSegments(Reset(s, choice).previousSnake, Reset(s, choice).snake) == [s.previousSnake[0]]
  {
  }

  // ---------------------------------------------------------------------------
  // The step gate of updateStep
  // ---------------------------------------------------------------------------

  /** Adding `increment` completes a step interval of a running game. */
  predicate StepDue(s: SceneState, increment: real)
  {
    !s.isGameOver && s.stepProgress + increment >= 1.0
  }

  predicate GateChoiceOk(s: SceneState, increment: real, choice: nat)
    requires |s.snake| > 0
  {
    StepDue(s, increment) ==> EatChoiceOk(s.snake, NewHead(s), s.food, choice, Columns, Rows)
  }

  /** The state after `updateStep`, where `increment` stands for
      `delta / stepDuration`. */
  function Updated(s: SceneState, increment: real, choice: nat): (r: SceneState)
    requires |s.snake| > 0
    requires GateChoiceOk(s, increment, choice)
    ensures s.isGameOver ==> r == s
    ensures !s.isGameOver && !StepDue(s, increment) ==> r == s.(stepProgress := s.stepProgress + increment)
    ensures StepDue(s, increment) ==> r.stepProgress == 0.0 && r.previousSnake == s.snake
  {
    if s.isGameOver then s
    else
      var t := s.(stepProgress := s.stepProgress + increment);
      if t.stepProgress >= 1.0 then Stepped(t.(stepProgress := 0.0, previousSnake := t.snake), choice)
      else t
  }

  /** A due step is exactly one logical step of the snapshot taken before it. */
  lemma UpdatedStepsOnce(s: SceneState, increment: real, choice: nat)
    requires |s.snake| > 0
    requires StepDue(s, increment)
    requires EatChoiceOk(s.snake, NewHead(s), s.food, choice, Columns, Rows)
    ensures var r := Updated(s, increment, choice);
      r.snake == Stepped(s, choice).snake && r.food == Stepped(s, choice).food &&
      r.score == Stepped(s, choice).score && r.isGameOver == Stepped(s, choice).isGameOver &&
      r.direction == s.direction
  {
  }

  lemma UpdatedKeepsInvariant(s: SceneState, increment: real, choice: nat)
    requires Invariant(s)
    requires GateChoiceOk(s, increment, choice)
    ensures Invariant(Updated(s, increment, choice))
  {
    if StepDue(s, increment) {
      SteppedKeepsInvariant(s.(stepProgress := 0.0, previousSnake := s.snake), choice);
    }
  }

  /** With non-negative increments the progress stays in [0, 1), and the score
      never goes down while the game runs. */
  lemma UpdatedProgressAndScore(s: SceneState, increment: real, choice: nat)
    requires |s.snake| > 0
    requires GateChoiceOk(s, increment, choice)
    requires 0.0 <= s.stepProgress < 1.0 && 0.0 <= increment
    ensures 0.0 <= Updated(s, increment, choice).stepProgress < 1.0
    ensures Updated(s, increment, choice).score >= s.score
  {
  }

  // ---------------------------------------------------------------------------
  // Interpolation: the previous cell each drawn segment blends from
  // ---------------------------------------------------------------------------

  /** `previousSnake[i]` where that index exists, else the current cell. */
  function PreviousSegments(previous: seq<Point>, current: seq<Point>): seq<Point>
  {
    seq(|current|, i requires 0 <= i < |current| => if i < |previous| then previous[i] else current[i])
  }

  /** After a due step, the head blends from the old head to the cell one
      direction away, every other segment blends from its own old cell into the
      cell its predecessor occupied, and a segment added by eating is drawn at
      rest. After a collision every segment is at rest. */
  lemma {:induction false} InterpolationAfterStep(s: SceneState, increment: real, choice: nat)
    requires Invariant(s)
    requires StepDue(s, increment)
    requires EatChoiceOk(s.snake, NewHead(s), s.food, choice, Columns, Rows)
    ensures var r := Updated(s, increment, choice);
      var prev := PreviousSegments(r.previousSnake, r.snake);
      |prev| == |r.snake| &&
      (r.isGameOver ==> prev == r.snake) &&
      (!r.isGameOver ==>
        prev[0] == s.snake[0] && r.snake[0] == Shift(s.snake[0], s.direction) &&
        (forall i :: 0 < i < |s.snake| ==> prev[i] == s.snake[i] && r.snake[i] == s.snake[i - 1]) &&
        (|r.snake| > |s.snake| ==> prev[|s.snake|] == r.snake[|s.snake|]))
  {
    var r := Updated(s, increment, choice);
    var prev := PreviousSegments(r.previousSnake, r.snake);
    if !r.isGameOver {
      forall i | 0 < i < |s.snake|
        ensures prev[i] == s.snake[i] && r.snake[i] == s.snake[i - 1]
      {
        assert r.snake[i] == r.snake[1..][i - 1];
      }
    }
  }

  // ---------------------------------------------------------------------------
  // The scene's game state, updated in place
  // ---------------------------------------------------------------------------

  class SnakeScene {
    var snake: seq<Point>
    var direction: Vector
    var food: Point
    var score: int
    var isGameOver: bool
    var previousSnake: seq<Point>
    var stepProgress: real

    function State(): SceneState
      reads this
    {
      SceneState(snake, direction, food, score, isGameOver, previousSnake, stepProgress)
    }

    ghost predicate Valid()
      reads this
    {
      Invariant(State())
    }

    /** The field initialisers. */
    constructor ()
      ensures Valid()
      ensures State() == SceneState([Start], Right, Point(0, 0), 0, false, [], 0.0)
    {
      snake := [Start];
      direction := Right;
      food := Point(0, 0);
      score := 0;
      isGameOver := false;
      previousSnake := [];
      stepProgress := 0.0;
    }

    /** `didMove(to:)`: places the first food (timer and UI wiring not modelled). */
    method DidMove(choice: nat)
      requires Valid()
      requires ChoiceFits(choice, EmptyCells(snake, Columns, Rows))
      modifies this
      ensures Valid()
      ensures State() == old(State()).(food := PickFood(EmptyCells(old(snake), Columns, Rows), choice, Fallback))
    {
      SpawnFood(choice);
      SpawnedFoodPlaced(snake, Columns, Rows, choice, Fallback);
    }

    method SpawnFood(choice: nat)
      requires ChoiceFits(choice, EmptyCells(snake, Columns, Rows))
      modifies this`food
      ensures food == PickFood(EmptyCells(snake, Columns, Rows), choice, Fallback)
      ensures InBounds(food, Columns, Rows)
      ensures !GridFull(snake, Columns, Rows) ==> food !in snake
      ensures GridFull(snake, Columns, Rows) ==> food == Fallback
    {
      var empty := CollectEmpty(snake, Columns, Rows);
      food := PickFood(empty, choice, Fallback);
      SpawnedFoodPlaced(snake, Columns, Rows, choice, Fallback);
    }

    /** `endGame`, state part only (the label and timer are not modelled). */
    method EndGame()
      modifies this`isGameOver
      ensures isGameOver
    {
      isGameOver := true;
    }

    method LogicalStep(choice: nat)
      requires Valid()
      requires EatChoiceOk(snake, NewHead(State()), food, choice, Columns, Rows)
      modifies this
      ensures Valid()
      ensures State() == Stepped(old(State()), choice)
    {
      ghost var s0 := State();
      var newHead := Shift(snake[0], direction);
      if !InBounds(newHead, Columns, Rows) {
        EndGame();
        SteppedKeepsInvariant(s0, choice);
        return;
      }
      if newHead in snake {
        EndGame();
        SteppedKeepsInvariant(s0, choice);
        return;
      }
      snake := [newHead] + snake;
      if newHead == food {
        score := score + FoodScore;
        SpawnFood(choice);
      } else {
        snake := snake[..|snake| - 1];
      }
      SteppedKeepsInvariant(s0, choice);
    }

    method ChangeDirection(newDir: Vector)
      modifies this`direction
      ensures direction == Turned(old(direction), newDir)
    {
      if (direction.dx == 0 && newDir.dx != 0) || (direction.dy == 0 && newDir.dy != 0) {
        direction := newDir;
      }
    }

    /** `resetGame`, state part only (the timer restart and UI callback are not
        modelled). */
    method ResetGame(choice: nat)
      requires ChoiceFits(choice, EmptyCells([Start], Columns, Rows))
      modifies this
      ensures Valid()
      ensures State() == Reset(old(State()), choice)
    {
      score := 0;
      isGameOver := false;
      direction := Right;
      snake := [Point(Columns / 2, Rows / 2)];
      SpawnFood(choice);
    }

    /** `updateStep(delta:)`, with `increment` standing for `delta / stepDuration`. */
    method UpdateStep(increment: real, choice: nat)
      requires Valid()
      requires GateChoiceOk(State(), increment, choice)
      modifies this
      ensures Valid()
      ensures State() == Updated(old(State()), increment, choice)
    {
      if isGameOver {
        return;
      }
      stepProgress := stepProgress + increment;
      if stepProgress >= 1.0 {
        stepProgress := 0.0;
        previousSnake := snake;
        LogicalStep(choice);
      }
    }

    /** The index rule of `interpolateVisuals`: the cell each drawn segment
        blends from. */
    method PreviousPositions() returns (prev: seq<Point>)
      ensures prev == PreviousSegments(previousSnake, snake)
    {
      prev := [];
      for index := 0 to |snake|
        invariant |prev| == index
        invariant forall i :: 0 <= i < index ==> prev[i] == PreviousSegments(previousSnake, snake)[i]
      {
        var current := snake[index];
        var previous := if index < |previousSnake| then previousSnake[index] else current;
        prev := prev + [previous];
      }
    }
  }
}
