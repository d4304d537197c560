/** The standalone snake model: a 40 x 40 board, an enumerated direction,
    `turn` that ignores only an exact reversal, and `step` that reports whether
    the move succeeded. It keeps no score.
 */
module Model {
  import opened Board

  const Columns: nat := 40
  const Rows: nat := 40
  /** The start cell, which is not the centre of this board. */
  const Start := Point(10, 10)
  /** The cell food goes to when no cell is free. */
  const Fallback := Point(5, 5)

  datatype Direction = Up | Down | Left | Right

  /** The head movement `step` applies for each direction. */
  function Delta(d: Direction): (v: Vector)
    ensures (v.dx == 0) != (v.dy == 0) && -1 <= v.dx <= 1 && -1 <= v.dy <= 1
    ensures d.Up? || d.Down? <==> v.dx == 0
    ensures d.Up? || d.Right? <==> v.dx + v.dy == 1
  {
    match d
    case Up => Vector(0, 1)
    case Down => Vector(0, -1)
    case Left => Vector(-1, 0)
    case Right => Vector(1, 0)
  }

  /** The direction after `turn(to: requested)`. */
  function Turned(current: Direction, requested: Direction): (d: Direction)
    ensures d == current || d == requested
    ensures d == current <==> requested == current || Delta(requested) == Negate(Delta(current))
    ensures Delta(d) != Negate(Delta(current))
  {
    match (current, requested)
    case (Up, Down) => current
    case (Down, Up) => current
    case (Left, Right) => current
    case (Right, Left) => current
    case _ => requested
  }

  datatype ModelState = ModelState(snake: seq<Point>, food: Point, dir: Direction, isGameOver: bool)

  /** What every reachable state satisfies: a well-formed body on the board and
      food placed. */
  ghost predicate Invariant(s: ModelState)
  {
    WellFormedBody(s.snake, Columns, Rows) && FoodPlaced(s.snake, s.food, Columns, Rows)
  }

  function NewHead(s: ModelState): Point
    requires |s.snake| > 0
  {
    Shift(s.snake[0], Delta(s.dir))
  }

  /** The state when `init` returns: it always places food, on a free cell. */
  function Initial(choice: nat): (s: ModelState)
    requires ChoiceFits(choice, EmptyCells([Start], Columns, Rows))
    ensures s.snake == [Start] && s.dir == Right && !s.isGameOver
    ensures s.food != Start && InBounds(s.food, Columns, Rows)
    ensures Invariant(s)
  {
    EmptyCellsMembership([Start], Columns, Rows, Point(0, 0));
    SpawnedFoodPlaced([Start], Columns, Rows, choice, Fallback);
    ModelState([Start], PickFood(EmptyCells([Start], Columns, Rows), choice, Fallback), Right, false)
  }

  /** What `step` returns, with the state it leaves behind. */
  datatype StepOutcome = StepOutcome(ok: bool, state: ModelState)

  predicate StepChoiceOk(s: ModelState, choice: nat)
    requires |s.snake| > 0
  {
    !s.isGameOver ==> EatChoiceOk(s.snake, NewHead(s), s.food, choice, Columns, Rows)
  }

  function Stepped(s: ModelState, choice: nat): (r: StepOutcome)
    requires |s.snake| > 0
    requires StepChoiceOk(s, choice)
    // once over, nothing moves
    ensures s.isGameOver ==> !r.ok && r.state == s
    // the move succeeds exactly when the new head is on the board and off the whole body
    ensures r.ok <==> !s.isGameOver && InBounds(NewHead(s), Columns, Rows) && NewHead(s) !in s.snake
    // a collision ends the game and changes nothing else
    ensures !s.isGameOver && !r.ok ==> r.state == s.(isGameOver := true)
    ensures r.ok ==>
      !r.state.isGameOver && r.state.dir == s.dir &&
      |r.state.snake| == |s.snake| + (if NewHead(s) == s.food then 1 else 0) &&
      r.state.snake[0] == NewHead(s)
    ensures r.ok && NewHead(s) == s.food ==> r.state.snake[1..] == s.snake
    ensures r.ok && NewHead(s) != s.food ==> r.state.snake[1..] == s.snake[..|s.snake| - 1] && r.state.food == s.food
  {
    if s.isGameOver then StepOutcome(false, s)
    else
      match Advance(s.snake, NewHead(s), s.food, Columns, Rows)
      case HitWall => StepOutcome(false, s.(isGameOver := true))
      case HitSelf => StepOutcome(false, s.(isGameOver := true))
      case Slid(body) => StepOutcome(true, s.(snake := body))
      case Ate(body) =>
        StepOutcome(true, s.(snake := body, food := PickFood(EmptyCells(body, Columns, Rows), choice, Fallback)))
  }

  /** A step keeps the invariant; after eating, the new food is off the grown
      body unless that body covers the board. */
  lemma SteppedKeepsInvariant(s: ModelState, choice: nat)
    requires Invariant(s)
    requires StepChoiceOk(s, choice)
    ensures Invariant(Stepped(s, choice).state)
    ensures Stepped(s, choice).ok && !GridFull(Stepped(s, choice).state.snake, Columns, Rows) ==>
      Stepped(s, choice).state.food !in Stepped(s, choice).state.snake
  {
    if !s.isGameOver {
      match Advance(s.snake, NewHead(s), s.food, Columns, Rows)
      case HitWall =>
      case HitSelf =>
      case Slid(body) =>
        SlideKeepsFoodPlaced(s.snake, NewHead(s), s.food, Columns, Rows);
      case Ate(body) =>
        SpawnedFoodPlaced(body, Columns, Rows, choice, Fallback);
    }
  }

  class SnakeModel {
    var snake: seq<Point>
    var food: Point
    var dir: Direction
    var isGameOver: bool

    function State(): ModelState
      reads this
    {
      ModelState(snake, food, dir, isGameOver)
    }

    ghost predicate Valid()
      reads this
    {
      Invariant(State())
    }

    /** `init()`: the field initialisers, then `placeFood()`. */
    constructor (choice: nat)
      requires ChoiceFits(choice, EmptyCells([Start], Columns, Rows))
      ensures Valid()
      ensures State() == Initial(choice)
    {
      snake := [Start];
      food := Point(0, 0);
      dir := Right;
      isGameOver := false;
      new;
      PlaceFood(choice);
    }

    method Turn(newDir: Direction)
      modifies this`dir
      ensures dir == Turned(old(dir), newDir)
    {
      match (dir, newDir)
      case (Up, Down) =>
      case (Down, Up) =>
      case (Left, Right) =>
      case (Right, Left) =>
      case _ => dir := newDir;
    }

    method Step(choice: nat) returns (ok: bool)
      requires Valid()
      requires StepChoiceOk(State(), choice)
      modifies this
      ensures Valid()
      ensures StepOutcome(ok, State()) == Stepped(old(State()), choice)
    {
      ghost var s0 := State();
      if isGameOver {
        return false;
      }
      var head := snake[0];
      match dir {
        case Up => head := head.(y := head.y + 1);
        case Down => head := head.(y := head.y - 1);
        case Left => head := head.(x := head.x - 1);
        case Right => head := head.(x := head.x + 1);
      }
      assert head == NewHead(s0);

      if head.x < 0 || head.x >= Columns || head.y < 0 || head.y >= Rows {
        isGameOver := true;
        assert Advance(s0.snake, head, s0.food, Columns, Rows).HitWall?;
        SteppedKeepsInvariant(s0, choice);
        return false;
      }
      if head in snake {
        isGameOver := true;
        assert Advance(s0.snake, head, s0.food, Columns, Rows).HitSelf?;
        SteppedKeepsInvariant(s0, choice);
        return false;
      }
      snake := [head] + snake;
      if head == food {
        assert Advance(s0.snake, head, s0.food, Columns, Rows) == Ate(snake);
        PlaceFood(choice);
      } else {
        snake := snake[..|snake| - 1];
        assert Advance(s0.snake, head, s0.food, Columns, Rows) == Slid(snake);
      }
      SteppedKeepsInvariant(s0, choice);
      return true;
    }

    method PlaceFood(choice: nat)
      requires ChoiceFits(choice, EmptyCells(snake, Columns, Rows))
      modifies this`food
      ensures food == PickFood(EmptyCells(snake, Columns, Rows), choice, Fallback)
      ensures InBounds(food, Columns, Rows)
      ensures !GridFull(snake, Columns, Rows) ==> food !in snake
      ensures GridFull(snake, Columns, Rows) ==> food == Fallback
    {
      var empty := CollectEmpty(snake, Columns, Rows);
      food := PickFood(empty, choice, Fallback);
      SpawnedFoodPlaced(snake, Columns, Rows, choice, Fallback);
    }
  }
}
