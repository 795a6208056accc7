/** The game state and the tick of Slither, a Snake clone on a 20 by 20
    board whose edges wrap around. The snake is the sequence of the cells it
    covers, head first; `length` is the number of cells it should cover. */
module Slither {

  const BoardWidth := 20   // B_WIDTH
  const BoardHeight := 20  // B_HEIGHT

  /** The length the snake starts with and is cut back to when it bites
      itself. */
  const InitialLength := 3

  /** The four arrow keys. */
  datatype Direction = Left | Up | Right | Down

  datatype Point = Point(x: int, y: int)

  predicate InBoard(p: Point)
  {
    0 <= p.x < BoardWidth && 0 <= p.y < BoardHeight
  }

  predicate AllInBoard(body: seq<Point>)
  {
    forall i :: 0 <= i < |body| ==> InBoard(body[i])
  }

  /** No cell is covered twice. */
  predicate Distinct(body: seq<Point>)
  {
    forall i, j :: 0 <= i < j < |body| ==> body[i] != body[j]
  }

  /** Horizontal and vertical unit steps of a direction. */
  function DeltaX(d: Direction): int
  {
    match d
    case Left => -1
    case Right => 1
    case _ => 0
  }

  function DeltaY(d: Direction): int
  {
    match d
    case Up => -1
    case Down => 1
    case _ => 0
  }

  // ---------------------------------------------------------------------
  // One tick

  /** Where the head goes: one cell in direction `d`, then brought back onto
      the board by the chain of edge tests of `update`, which corrects one
      coordinate at most. From a cell of the board this is the step taken
      modulo the board's size, and it never leaves the head where it was. */
  function NextHead(head: Point, d: Direction): (r: Point)
    ensures InBoard(head) ==> InBoard(r)
    ensures InBoard(head) ==>
      r == Point((head.x + DeltaX(d)) % BoardWidth, (head.y + DeltaY(d)) % BoardHeight)
    ensures InBoard(head) ==> r != head
  {
    var nx := match d case Left => head.x - 1 case Right => head.x + 1 case _ => head.x;
    var ny := match d case Up => head.y - 1 case Down => head.y + 1 case _ => head.y;
    if nx >= BoardWidth then Point(nx - BoardWidth, ny)
    else if nx < 0 then Point(nx + BoardWidth, ny)
    else if ny >= BoardHeight then Point(nx, ny - BoardHeight)
    else if ny < 0 then Point(nx, ny + BoardHeight)
    else Point(nx, ny)
  }

  /** The body after the new head `h` is put in front: the old body whole
      when the snake eats, without its last cell otherwise. */
  function Slide(body: seq<Point>, h: Point, eats: bool): seq<Point>
    requires body != []
  {
    if eats then [h] + body else [h] + body[..|body| - 1]
  }

  /** The head meets a cell of the body from the third one on; the first two
      are not tested. */
  predicate SelfHit(body: seq<Point>)
  {
    exists i :: 2 <= i < |body| && body[i] == body[0]
  }

  /** The body after a whole tick: the slid body, cut back to its first
      `InitialLength` cells when the head meets the body. */
  function Advance(body: seq<Point>, h: Point, eats: bool): (r: seq<Point>)
    requires body != []
  {
    var slid := Slide(body, h, eats);
    if SelfHit(slid) then slid[..InitialLength] else slid
  }

  // ---------------------------------------------------------------------
  // The game state

  class Snake {
    var direction: Direction
    var length: int
    var body: seq<Point>
    var food: Point

    /** What the start establishes and every tick keeps: the body covers
        `length` cells, at least `InitialLength` of them, all on the board,
        and so does the food. */
    ghost predicate Valid()
      reads this
    {
      |body| == length && length >= InitialLength && AllInBoard(body) && InBoard(food)
    }

    /** The start of the game: a snake of three cells in the middle row,
        head at the centre and heading right. `initialFood` stands for the
        random cell `rand` chooses. */
    constructor (initialFood: Point)
      requires InBoard(initialFood)
      ensures body == [Point(10, 10), Point(9, 10), Point(8, 10)]
      ensures length == InitialLength && direction == Right && food == initialFood
      ensures Valid()
    {
      direction := Right;
      length := InitialLength;
      var cells: seq<Point> := [];
      var k := 0;
      while k < InitialLength
        invariant 0 <= k <= InitialLength && |cells| == k
        invariant forall j :: 0 <= j < k ==> cells[j] == Point(BoardWidth / 2 - j, BoardHeight / 2)
      {
        cells := cells + [Point(BoardWidth / 2 - k, BoardHeight / 2)];
        k := k + 1;
      }
      body := cells;
      food := initialFood;
    }

    /** An arrow key sets the direction of the next ticks. */
    method Steer(d: Direction)
      modifies this
      ensures direction == d
      ensures body == old(body) && length == old(length) && food == old(food)
    {
      direction := d;
    }

    /** `update`: one tick. The head moves one cell; the snake grows when
        the head lands on the food, which then moves to `newFood` (the
        cell `rand` would choose), and otherwise loses its last cell; a
        head that meets the body from its third cell on cuts the snake back
        to `InitialLength` cells. */
    method Tick(newFood: Point)
      requires Valid() && InBoard(newFood)
      modifies this
      ensures
        var h := NextHead(old(body)[0], old(direction));
        var eats := h == old(food);
        && body == Advance(old(body), h, eats)
        && length == (if SelfHit(Slide(old(body), h, eats)) then InitialLength
                      else old(length) + (if eats then 1 else 0))
        && food == (if eats then newFood else old(food))
      ensures direction == old(direction)
      ensures Valid()
    {
      var h := NextHead(body[0], direction);
      // The new head goes in front.
      body := [h] + body;
      if body[0] == food {
        length := length + 1;
        food := newFood;
      } else {
        // No food here: the last cell goes.
        body := body[..|body| - 1];
      }
      ghost var slid, grown, fed := body, length, food;
      assert slid == Slide(old(body), h, h == old(food));
      // Test the body from its third cell on.
      var i := 2;
      while i < |body|
        invariant 2 <= i <= |body|
        invariant body == slid && length == grown && food == fed && direction == old(direction)
        invariant forall j :: 2 <= j < i ==> body[j] != body[0]
      {
        if body[0] == body[i] {
          assert SelfHit(slid);
          length := InitialLength;
          while |body| > length
            invariant length == InitialLength && food == fed && direction == old(direction)
            invariant InitialLength <= |body| <= |slid| && body == slid[..|body|]
          {
            body := body[..|body| - 1];
          }
          break;
        }
        i := i + 1;
      }
    }
  }

  // ---------------------------------------------------------------------
  // Properties of a tick

  /** The body keeps to the board: a head from `NextHead` and cells that
      were on it already. */
  lemma AdvanceInBoard(body: seq<Point>, d: Direction, food: Point)
    requires body != [] && AllInBoard(body)
    ensures var h := NextHead(body[0], d);
      AllInBoard(Advance(body, h, h == food))
  {
  }

  /** The length the tick leaves: one more after eating, the same
      otherwise, and `InitialLength` after a bite. */
  lemma AdvanceLength(body: seq<Point>, h: Point, eats: bool)
    requires |body| >= InitialLength
    ensures |Advance(body, h, eats)| ==
      if SelfHit(Slide(body, h, eats)) then InitialLength else |body| + (if eats then 1 else 0)
    ensures |Advance(body, h, eats)| >= InitialLength
  {
  }

  /** A bite leaves the new head followed by the first two cells of the old
      body. */
  lemma BiteKeepsNeck(body: seq<Point>, h: Point, eats: bool)
    requires |body| >= InitialLength
    requires SelfHit(Slide(body, h, eats))
    ensures Advance(body, h, eats) == [h, body[0], body[1]]
  {
  }

  /** Moving onto the cell the tail leaves in the same tick is no bite: the
      tail goes before the body is tested. */
  lemma VacatedTail(body: seq<Point>)
    requires |body| >= InitialLength && Distinct(body)
    ensures !SelfHit(Slide(body, body[|body| - 1], false))
  {
  }

  /** A tick keeps the cells of the body apart, unless the head turns back
      onto the cell right behind it: then the bite that follows keeps both. */
  lemma AdvanceDistinct(body: seq<Point>, h: Point, eats: bool)
    requires |body| >= InitialLength && Distinct(body)
    requires h != body[0] && h != body[1]
    ensures Distinct(Advance(body, h, eats))
  {
  }

  /** The start position reversed: heading left, the head lands on the
      second cell, the bite keeps it, and the body covers (9, 10) twice. */
  lemma ReversalOverlaps()
    ensures var body := [Point(10, 10), Point(9, 10), Point(8, 10)];
      var h := NextHead(body[0], Left);
      h == body[1] && Advance(body, h, false) == [Point(9, 10), Point(10, 10), Point(9, 10)]
      && !Distinct(Advance(body, h, false))
  {
    var body := [Point(10, 10), Point(9, 10), Point(8, 10)];
    var slid := Slide(body, Point(9, 10), false);
    assert slid == [Point(9, 10), Point(10, 10), Point(9, 10)];
    assert SelfHit(slid) by {
      assert slid[2] == slid[0];
    }
  }

  /** The start position is on the board, with no cell covered twice. */
  lemma StartIsValid()
    ensures AllInBoard([Point(10, 10), Point(9, 10), Point(8, 10)])
    ensures Distinct([Point(10, 10), Point(9, 10), Point(8, 10)])
  {
  }

  /** Crossing an edge: left from the first column enters the last one,
      and so on round the board. */
  lemma WrapsAround()
    ensures NextHead(Point(0, 10), Left) == Point(19, 10)
    ensures NextHead(Point(19, 10), Right) == Point(0, 10)
    ensures NextHead(Point(5, 0), Up) == Point(5, 19)
    ensures NextHead(Point(5, 19), Down) == Point(5, 0)
  {
  }
}
