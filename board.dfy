/** Cells, bodies and food placement shared by both snake simulations.

    The source stores cells as CGPoint, but every coordinate it ever holds is a
    whole number (integer start cells, unit deltas), so a cell is a pair of ints.
 */
module Board {

  /** A grid cell; (0, 0) is the bottom-left corner. */
  datatype Point = Point(x: int, y: int)

  /** A movement per step (the source's CGVector). */
  datatype Vector = Vector(dx: int, dy: int)

  function Shift(p: Point, v: Vector): Point
  {
    Point(p.x + v.dx, p.y + v.dy)
  }

  function Negate(v: Vector): Vector
  {
    Vector(-v.dx, -v.dy)
  }

  predicate InBounds(p: Point, cols: int, rows: int)
  {
    0 <= p.x < cols && 0 <= p.y < rows
  }

  predicate NoDuplicates(s: seq<Point>)
  {
    forall i, j :: 0 <= i < j < |s| ==> s[i] != s[j]
  }

  predicate AllInBounds(s: seq<Point>, cols: int, rows: int)
  {
    forall i :: 0 <= i < |s| ==> InBounds(s[i], cols, rows)
  }

  /** A live snake: at least a head, no cell twice, every cell on the board. */
  predicate WellFormedBody(s: seq<Point>, cols: int, rows: int)
  {
    |s| > 0 && NoDuplicates(s) && AllInBounds(s, cols, rows)
  }

  /** Every cell of the board is covered by the body. */
  ghost predicate GridFull(body: seq<Point>, cols: int, rows: int)
  {
    forall q :: InBounds(q, cols, rows) ==> q in body
  }

  /** Food lies on the board, and on the body only when no free cell was left
      to choose from (the fallback cell). */
  ghost predicate FoodPlaced(body: seq<Point>, food: Point, cols: int, rows: int)
  {
    InBounds(food, cols, rows) && (food in body ==> GridFull(body, cols, rows))
  }

  // ---------------------------------------------------------------------------
  // The empty-cell scan: rows bottom to top, each row left to right.
  // ---------------------------------------------------------------------------

  /** The free cells (x, y) with 0 <= x < n, in increasing x. */
  function RowCells(body: seq<Point>, y: int, n: nat): seq<Point>
  {
    if n == 0 then []
    else RowCells(body, y, n - 1) + (if Point(n - 1, y) in body then [] else [Point(n - 1, y)])
  }

  /** The free cells of the first `rows` rows of a board `cols` wide, in the
      order the nested `for y { for x { ... } }` loops of the source append them. */
  function EmptyCells(body: seq<Point>, cols: nat, rows: nat): seq<Point>
  {
    if rows == 0 then [] else EmptyCells(body, cols, rows - 1) + RowCells(body, rows - 1, cols)
  }

  /** Every cell a row scan lists is in that row, left of `n`, and free. */
  lemma {:induction false} RowCellsAt(body: seq<Point>, y: int, n: nat, i: nat)
    requires i < |RowCells(body, y, n)|
    ensures RowCells(body, y, n)[i].y == y && 0 <= RowCells(body, y, n)[i].x < n
    ensures RowCells(body, y, n)[i] !in body
  {
    if i < |RowCells(body, y, n - 1)| {
      RowCellsAt(body, y, n - 1, i);
    }
  }

  /** Every free cell of the row left of `n` is listed, at the position returned. */
  lemma {:induction false} RowCellsIndexOf(body: seq<Point>, y: int, n: nat, p: Point) returns (i: nat)
    requires p.y == y && 0 <= p.x < n && p !in body
    ensures i < |RowCells(body, y, n)| && RowCells(body, y, n)[i] == p
  {
    if p.x < n - 1 {
      i := RowCellsIndexOf(body, y, n - 1, p);
    } else {
      i := |RowCells(body, y, n - 1)|;
    }
  }

  lemma RowCellsMembership(body: seq<Point>, y: int, n: nat, p: Point)
    ensures p in RowCells(body, y, n) <==> p.y == y && 0 <= p.x < n && p !in body
  {
    var row := RowCells(body, y, n);
    if p in row {
      var i :| 0 <= i < |row| && row[i] == p;
      RowCellsAt(body, y, n, i);
    }
    if p.y == y && 0 <= p.x < n && p !in body {
      var i := RowCellsIndexOf(body, y, n, p);
    }
  }

  /** Every cell the scan lists is on the board and not under the body. */
  lemma {:induction false} EmptyCellsAt(body: seq<Point>, cols: nat, rows: nat, i: nat)
    requires i < |EmptyCells(body, cols, rows)|
    ensures InBounds(EmptyCells(body, cols, rows)[i], cols, rows)
    ensures EmptyCells(body, cols, rows)[i] !in body
  {
    var front := EmptyCells(body, cols, rows - 1);
    if i < |front| {
      EmptyCellsAt(body, cols, rows - 1, i);
    } else {
      RowCellsAt(body, rows - 1, cols, i - |front|);
    }
  }

  /** Every free board cell is listed by the scan, at the position returned. */
  lemma {:induction false} EmptyCellsIndexOf(body: seq<Point>, cols: nat, rows: nat, p: Point) returns (i: nat)
    requires InBounds(p, cols, rows) && p !in body
    ensures i < |EmptyCells(body, cols, rows)| && EmptyCells(body, cols, rows)[i] == p
  {
    if p.y < rows - 1 {
      i := EmptyCellsIndexOf(body, cols, rows - 1, p);
    } else {
      var j := RowCellsIndexOf(body, rows - 1, cols, p);
      i := |EmptyCells(body, cols, rows - 1)| + j;
    }
  }

  /** A cell is listed exactly when it is on the board and not under the body. */
  lemma EmptyCellsMembership(body: seq<Point>, cols: nat, rows: nat, p: Point)
    ensures p in EmptyCells(body, cols, rows) <==> InBounds(p, cols, rows) && p !in body
  {
    var empty := EmptyCells(body, cols, rows);
    if p in empty {
      var i :| 0 <= i < |empty| && empty[i] == p;
      EmptyCellsAt(body, cols, rows, i);
    }
    if InBounds(p, cols, rows) && p !in body {
      var i := EmptyCellsIndexOf(body, cols, rows, p);
    }
  }

  /** The scan finds nothing exactly when the body covers the board. */
  lemma EmptyCellsNoneIffFull(body: seq<Point>, cols: nat, rows: nat)
    ensures EmptyCells(body, cols, rows) == [] <==> GridFull(body, cols, rows)
  {
    var empty := EmptyCells(body, cols, rows);
    if empty != [] {
      EmptyCellsMembership(body, cols, rows, empty[0]);
    } else {
      forall q | InBounds(q, cols, rows)
        ensures q in body
      {
        EmptyCellsMembership(body, cols, rows, q);
      }
    }
  }

  /** Row-major order: lower rows first, then lower columns. */
  predicate Before(p: Point, q: Point)
  {
    p.y < q.y || (p.y == q.y && p.x < q.x)
  }

  predicate RowMajor(s: seq<Point>)
  {
    forall i, j :: 0 <= i < j < |s| ==> Before(s[i], s[j])
  }

  /** Two row-major runs, every cell of the first before every cell of the second. */
  lemma ConcatRowMajor(front: seq<Point>, back: seq<Point>)
    requires RowMajor(front) && RowMajor(back)
    requires forall p, q :: p in front && q in back ==> Before(p, q)
    ensures RowMajor(front + back)
  {
    var all := front + back;
    forall i, j | 0 <= i < j < |all|
      ensures Before(all[i], all[j])
    {
      if j < |front| {
      } else if i >= |front| {
        assert all[i] == back[i - |front|] && all[j] == back[j - |front|];
      } else {
        assert all[i] in front && all[j] in back;
      }
    }
  }

  lemma {:induction false} RowCellsRowMajor(body: seq<Point>, y: int, n: nat)
    ensures RowMajor(RowCells(body, y, n))
  {
    if n > 0 {
      RowCellsRowMajor(body, y, n - 1);
      var front := RowCells(body, y, n - 1);
      var back := if Point(n - 1, y) in body then [] else [Point(n - 1, y)];
      forall p, q | p in front && q in back
        ensures Before(p, q)
      {
        RowCellsMembership(body, y, n - 1, p);
      }
      ConcatRowMajor(front, back);
    }
  }

  /** The scan lists every free cell once, in row-major order. */
  lemma {:induction false} EmptyCellsRowMajor(body: seq<Point>, cols: nat, rows: nat)
    ensures RowMajor(EmptyCells(body, cols, rows))
    ensures NoDuplicates(EmptyCells(body, cols, rows))
  {
    if rows > 0 {
      EmptyCellsRowMajor(body, cols, rows - 1);
      RowCellsRowMajor(body, rows - 1, cols);
      var front, last := EmptyCells(body, cols, rows - 1), RowCells(body, rows - 1, cols);
      forall p, q | p in front && q in last
        ensures Before(p, q)
      {
        EmptyCellsMembership(body, cols, rows - 1, p);
        RowCellsMembership(body, rows - 1, cols, q);
      }
      ConcatRowMajor(front, last);
    }
  }

  /** The nested loops that build the source's `empty` array. */
  method CollectEmpty(body: seq<Point>, cols: nat, rows: nat) returns (empty: seq<Point>)
    ensures empty == EmptyCells(body, cols, rows)
  {
    empty := [];
    for y := 0 to rows
      invariant empty == EmptyCells(body, cols, y)
    {
      for x := 0 to cols
        invariant empty == EmptyCells(body, cols, y) + RowCells(body, y, x)
      {
        var p := Point(x, y);
        if p !in body {
          empty := empty + [p];
        }
      }
    }
  }

  // ---------------------------------------------------------------------------
  // Food choice: a random empty cell, or a fixed fallback cell when none is
  // free; the random index is a parameter.
  // ---------------------------------------------------------------------------

  /** The index drawn by the random source is in range whenever there is a choice. */
  predicate ChoiceFits(choice: nat, empty: seq<Point>)
  {
    |empty| == 0 || choice < |empty|
  }

  function PickFood(empty: seq<Point>, choice: nat, fallback: Point): (p: Point)
    requires ChoiceFits(choice, empty)
    ensures p in empty || (empty == [] && p == fallback)
  {
    if |empty| == 0 then fallback else empty[choice]
  }

  /** Spawned food is on a free board cell whenever one exists, and is the
      fallback cell otherwise. */
  lemma SpawnedFoodPlaced(body: seq<Point>, cols: nat, rows: nat, choice: nat, fallback: Point)
    requires ChoiceFits(choice, EmptyCells(body, cols, rows))
    requires InBounds(fallback, cols, rows)
    ensures FoodPlaced(body, PickFood(EmptyCells(body, cols, rows), choice, fallback), cols, rows)
    ensures !GridFull(body, cols, rows) ==> PickFood(EmptyCells(body, cols, rows), choice, fallback) !in body
    ensures GridFull(body, cols, rows) ==> PickFood(EmptyCells(body, cols, rows), choice, fallback) == fallback
  {
    var empty := EmptyCells(body, cols, rows);
    var f := PickFood(empty, choice, fallback);
    EmptyCellsNoneIffFull(body, cols, rows);
    if empty != [] {
      EmptyCellsMembership(body, cols, rows, f);
    }
  }

  // ---------------------------------------------------------------------------
  // One logical move of the body, as both simulations perform it.
  // ---------------------------------------------------------------------------

  datatype Outcome = HitWall | HitSelf | Slid(body: seq<Point>) | Ate(body: seq<Point>)

  /** Wall first, then the whole current body (tail cell included), then food. */
  function Advance(body: seq<Point>, head: Point, food: Point, cols: int, rows: int): (o: Outcome)
    requires |body| > 0
    ensures o.HitWall? <==> !InBounds(head, cols, rows)
    ensures o.HitSelf? <==> InBounds(head, cols, rows) && head in body
    ensures o.Ate? <==> InBounds(head, cols, rows) && head !in body && head == food
    ensures o.Ate? ==> |o.body| == |body| + 1 && o.body[0] == head && o.body[1..] == body
    ensures o.Slid? ==> |o.body| == |body| && o.body[0] == head && o.body[1..] == body[..|body| - 1]
    ensures (o.Slid? || o.Ate?) && WellFormedBody(body, cols, rows) ==> WellFormedBody(o.body, cols, rows)
  {
    if !InBounds(head, cols, rows) then HitWall
    else if head in body then HitSelf
    else if head == food then Ate([head] + body)
    else Slid([head] + body[..|body| - 1])
  }

  /** Eating needs a usable random index for the respawn on the grown body. */
  predicate EatChoiceOk(body: seq<Point>, head: Point, food: Point, choice: nat, cols: nat, rows: nat)
  {
    InBounds(head, cols, rows) && head !in body && head == food ==>
      ChoiceFits(choice, EmptyCells([head] + body, cols, rows))
  }

  /** A plain move keeps the food where it was, and still off the body. */
  lemma SlideKeepsFoodPlaced(body: seq<Point>, head: Point, food: Point, cols: nat, rows: nat)
    requires WellFormedBody(body, cols, rows) && FoodPlaced(body, food, cols, rows)
    requires Advance(body, head, food, cols, rows).Slid?
    ensures FoodPlaced(Advance(body, head, food, cols, rows).body, food, cols, rows)
    ensures food !in Advance(body, head, food, cols, rows).body
  {
    // On a full board every head on the board is a self-hit, so a slide means
    // the food was off the body, and the moved body only drops cells.
  }
}
