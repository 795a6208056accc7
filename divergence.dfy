/** The level loader and the move resolver of Divergence, a Sokoban clone.
    A level is a ragged grid of cells, the player's position and `goals`, the
    number of goal cells that no box covers; the level is complete when
    `goals` reaches 0. */
module Divergence {
  import LevelFile

  datatype Option<T> = None | Some(value: T)

  /** The four arrow keys. */
  datatype Direction = Left | Up | Right | Down

  datatype Point = Point(x: int, y: int)

  /** The `type` of a cell: FLOOR or WALL. */
  datatype CellType = Floor | Wall

  datatype Cell = Cell(kind: CellType, isGoal: bool, hasBox: bool, onGoal: bool)

  /** `Level::map`: one sequence of cells per row; rows may differ in length. */
  type Grid = seq<seq<Cell>>

  // ---------------------------------------------------------------------
  // Points and cells

  /** `move`: the point next to `p` in direction `d`. */
  function Move(d: Direction, p: Point): (q: Point)
    ensures (if q.x < p.x then p.x - q.x else q.x - p.x) + (if q.y < p.y then p.y - q.y else q.y - p.y) == 1
    ensures (q.x < p.x <==> d == Left) && (q.x > p.x <==> d == Right)
    ensures (q.y < p.y <==> d == Up) && (q.y > p.y <==> d == Down)
  {
    match d
    case Left => Point(p.x - 1, p.y)
    case Up => Point(p.x, p.y - 1)
    case Right => Point(p.x + 1, p.y)
    case Down => Point(p.x, p.y + 1)
  }

  /** The invariant every cell keeps: a wall holds neither a goal nor a box,
      and `onGoal` marks exactly a box standing on a goal. */
  predicate WellFormed(c: Cell)
  {
    (c.kind == Wall ==> !c.isGoal && !c.hasBox) && c.onGoal == (c.isGoal && c.hasBox)
  }

  /** A goal that no box covers. */
  predicate IsOpenGoal(c: Cell)
  {
    c.isGoal && !c.hasBox
  }

  predicate IsBox(c: Cell)
  {
    c.hasBox
  }

  /** The cell a character of a level definition stands for ('|' starts a
      new row instead). */
  function CellOf(c: char): (cell: Cell)
    requires c != '|'
    ensures WellFormed(cell)
    ensures cell.kind == Wall <==> c == '#'
    ensures cell.isGoal <==> c == '.' || c == '*' || c == '&'
    ensures cell.hasBox <==> c == '$' || c == '*'
    ensures IsOpenGoal(cell) <==> c == '.' || c == '&'
  {
    match c
    case '.' => Cell(Floor, true, false, false)   // goal
    case '$' => Cell(Floor, false, true, false)   // box
    case '*' => Cell(Floor, true, true, true)     // box on a goal
    case '#' => Cell(Wall, false, false, false)   // wall
    case '@' => Cell(Floor, false, false, false)  // player
    case '&' => Cell(Floor, true, false, false)   // player on a goal
    case _ => Cell(Floor, false, false, false)    // empty floor
  }

  // ---------------------------------------------------------------------
  // Grids

  predicate InGrid(g: Grid, p: Point)
  {
    0 <= p.y < |g| && 0 <= p.x < |g[p.y]|
  }

  function At(g: Grid, p: Point): Cell
    requires InGrid(g, p)
  {
    g[p.y][p.x]
  }

  predicate SameShape(a: Grid, b: Grid)
  {
    |a| == |b| && forall y :: 0 <= y < |a| ==> |a[y]| == |b[y]|
  }

  /** Every cell of the grid keeps the cell invariant. */
  predicate GridOk(g: Grid)
  {
    forall y, x :: 0 <= y < |g| && 0 <= x < |g[y]| ==> WellFormed(g[y][x])
  }

  /** `g` with the cell at `p` replaced by `c`. */
  function SetCell(g: Grid, p: Point, c: Cell): Grid
    requires InGrid(g, p)
  {
    g[p.y := g[p.y][p.x := c]]
  }

  /** A second write to the same cell replaces the first. */
  lemma SetCellTwice(g: Grid, p: Point, a: Cell, b: Cell)
    requires InGrid(g, p)
    ensures SetCell(SetCell(g, p, a), p, b) == SetCell(g, p, b)
  {
    assert g[p.y][p.x := a][p.x := b] == g[p.y][p.x := b];
  }

  /** Writes to two different cells can be made in either order. */
  lemma SetCellSwap(g: Grid, p: Point, q: Point, a: Cell, b: Cell)
    requires InGrid(g, p) && InGrid(g, q) && p != q
    ensures SetCell(SetCell(g, p, a), q, b) == SetCell(SetCell(g, q, b), p, a)
  {
    if p.y == q.y {
      assert g[p.y][p.x := a][q.x := b] == g[p.y][q.x := b][p.x := a];
    }
  }

  /** Number of cells of `row` that satisfy `f`. */
  function CountRow(row: seq<Cell>, f: Cell -> bool): nat
  {
    if row == [] then 0
    else CountRow(row[..|row| - 1], f) + (if f(row[|row| - 1]) then 1 else 0)
  }

  /** Number of cells of `g` that satisfy `f`. */
  function CountCells(g: Grid, f: Cell -> bool): nat
  {
    if g == [] then 0
    else CountCells(g[..|g| - 1], f) + CountRow(g[|g| - 1], f)
  }

  /** The number of goals that no box covers: what `goals` must equal. */
  function Uncovered(g: Grid): nat
  {
    CountCells(g, IsOpenGoal)
  }

  function Boxes(g: Grid): nat
  {
    CountCells(g, IsBox)
  }

  /** Replacing one cell of a row changes its count by the difference the
      cell makes. */
  lemma {:induction false} CountRowSet(row: seq<Cell>, x: nat, c: Cell, f: Cell -> bool)
    requires x < |row|
    ensures CountRow(row[x := c], f) + (if f(row[x]) then 1 else 0)
         == CountRow(row, f) + (if f(c) then 1 else 0)
  {
    var n := |row| - 1;
    assert row[x := c][..n] == if x == n then row[..n] else row[..n][x := c];
    if x < n {
      CountRowSet(row[..n], x, c, f);
    }
  }

  /** Replacing one cell of a grid changes its count by the difference the
      cell makes. */
  lemma {:induction false} CountSet(g: Grid, p: Point, c: Cell, f: Cell -> bool)
    requires InGrid(g, p)
    ensures CountCells(SetCell(g, p, c), f) + (if f(At(g, p)) then 1 else 0)
         == CountCells(g, f) + (if f(c) then 1 else 0)
  {
    var n := |g| - 1;
    var r := SetCell(g, p, c);
    if p.y == n {
      assert r[..n] == g[..n];
      CountRowSet(g[n], p.x, c, f);
    } else {
      assert r[..n] == SetCell(g[..n], p, c);
      assert r[n] == g[n];
      CountSet(g[..n], p, c, f);
    }
  }

  // ---------------------------------------------------------------------
  // Parsing a level definition (`loadLevel`)

  /** The grid `loadLevel` builds: every character except '|' adds one cell
      to the current row, and '|' starts a new, empty row. */
  function Rows(def: string): (g: Grid)
    ensures |g| >= 1
  {
    if def == [] then [[]]
    else
      var prev := Rows(def[..|def| - 1]);
      var c := def[|def| - 1];
      assert def == def[..|def| - 1] + [c];
      if c == '|' then prev + [[]]
      else AddCell(prev, CellOf(c))
  }

  /** One row per '|' in the definition, plus the first. */
  lemma {:induction false} RowCount(def: string)
    ensures |Rows(def)| == multiset(def)['|'] + 1
  {
    if def != [] {
      var prefix, c := def[..|def| - 1], def[|def| - 1];
      assert def == prefix + [c];
      assert multiset(def) == multiset(prefix) + multiset{c};
      RowCount(prefix);
      if c == '|' {
        RowsBar(prefix);
      } else {
        RowsCell(prefix, c);
      }
    }
  }

  /** The cells of a row written without '|'. */
  function RowOf(line: string): seq<Cell>
    requires '|' !in line
  {
    seq(|line|, i requires 0 <= i < |line| => CellOf(line[i]))
  }

  /** Longest row of `g` (0 when `g` has no rows). */
  function MaxLen(g: Grid): (n: nat)
    ensures forall i :: 0 <= i < |g| ==> |g[i]| <= n
    ensures g == [] ==> n == 0
    ensures g != [] ==> exists i :: 0 <= i < |g| && |g[i]| == n
  {
    if g == [] then 0
    else
      var m := MaxLen(g[..|g| - 1]);
      if |g[|g| - 1]| > m then |g[|g| - 1]| else m
  }

  /** `Level::width`: the longest of the rows that a '|' ends. The last row
      is not measured. */
  function Width(def: string): nat
  {
    var g := Rows(def);
    MaxLen(g[..|g| - 1])
  }

  /** The width is the length of the longest row that a '|' ends. */
  lemma WidthIsLongest(def: string)
    ensures forall y :: 0 <= y < |Rows(def)| - 1 ==> |Rows(def)[y]| <= Width(def)
    ensures Width(def) == 0 || exists y :: 0 <= y < |Rows(def)| - 1 && |Rows(def)[y]| == Width(def)
  {
    var g := Rows(def);
    assert forall y :: 0 <= y < |g| - 1 ==> g[y] == g[..|g| - 1][y];
  }

  /** Where `loadLevel` puts the player: the position of the last '@' or '&'
      (its index in its row, and the row's index), if there is one. */
  function PlayerOf(def: string): Option<Point>
  {
    if def == [] then None
    else
      var prefix := def[..|def| - 1];
      var c := def[|def| - 1];
      if c == '@' || c == '&' then
        var prev := Rows(prefix);
        Some(Point(|prev[|prev| - 1]|, |prev| - 1))
      else PlayerOf(prefix)
  }

  /** `Rows` unfolded once: a trailing '|' adds an empty row. */
  lemma RowsBar(prefix: string)
    ensures Rows(prefix + ['|']) == Rows(prefix) + [[]]
  {
  }

  /** `Rows` unfolded once: any other trailing character adds its cell to
      the last row. */
  lemma RowsCell(prefix: string, c: char)
    requires c != '|'
    ensures Rows(prefix + [c]) == AddCell(Rows(prefix), CellOf(c))
  {
  }

  /** `g` with `cell` appended to its last row. */
  function AddCell(g: Grid, cell: Cell): Grid
    requires g != []
  {
    g[|g| - 1 := g[|g| - 1] + [cell]]
  }

  /** `PlayerOf` unfolded once. */
  lemma PlayerOfSnoc(prefix: string, c: char)
    ensures PlayerOf(prefix + [c]) ==
      if c == '@' || c == '&' then Some(Point(|Rows(prefix)[|Rows(prefix)| - 1]|, |Rows(prefix)| - 1))
      else PlayerOf(prefix)
  {
  }

  /** A new empty row adds nothing to a count. */
  lemma CountNewRow(g: Grid, f: Cell -> bool)
    ensures CountCells(g + [[]], f) == CountCells(g, f)
  {
  }

  /** A cell appended to the last row adds what it satisfies to a count. */
  lemma CountAddCell(g: Grid, cell: Cell, f: Cell -> bool)
    requires g != []
    ensures CountCells(AddCell(g, cell), f) == CountCells(g, f) + (if f(cell) then 1 else 0)
  {
  }

  /** `goals` after loading counts the '.' and '&' characters, which is the
      number of goals of the grid that no box covers. */
  lemma {:induction false} GoalsCounted(def: string)
    ensures Uncovered(Rows(def)) == multiset(def)['.'] + multiset(def)['&']
  {
    if def != [] {
      var n := |def| - 1;
      var prefix, c := def[..n], def[n];
      assert def == prefix + [c];
      assert multiset(def) == multiset(prefix) + multiset{c};
      GoalsCounted(prefix);
      if c == '|' {
        RowsBar(prefix);
        CountNewRow(Rows(prefix), IsOpenGoal);
      } else {
        RowsCell(prefix, c);
        CountAddCell(Rows(prefix), CellOf(c), IsOpenGoal);
      }
    } else {
      CountNewRow([], IsOpenGoal);
      assert Rows(def) == [] + [[]];
    }
  }

  /** Every cell `loadLevel` creates keeps the cell invariant. */
  lemma {:induction false} RowsWellFormed(def: string)
    ensures GridOk(Rows(def))
  {
    if def != [] {
      var n := |def| - 1;
      var prefix, c := def[..n], def[n];
      assert def == prefix + [c];
      RowsWellFormed(prefix);
      if c == '|' {
        RowsBar(prefix);
      } else {
        RowsCell(prefix, c);
      }
    }
  }

  /** The player is placed exactly when the definition holds an '@' or an
      '&'. */
  lemma {:induction false} PlayerPlaced(def: string)
    ensures PlayerOf(def).Some? <==> '@' in def || '&' in def
  {
    if def != [] {
      var n := |def| - 1;
      var prefix, c := def[..n], def[n];
      assert def == prefix + [c];
      PlayerOfSnoc(prefix, c);
      PlayerPlaced(prefix);
    }
  }

  /** The player stands inside the grid, on a floor cell without a box. */
  lemma {:induction false} PlayerCell(def: string)
    requires PlayerOf(def).Some?
    ensures InGrid(Rows(def), PlayerOf(def).value)
    ensures At(Rows(def), PlayerOf(def).value).kind == Floor
    ensures !At(Rows(def), PlayerOf(def).value).hasBox
  {
    var n := |def| - 1;
    var prefix, c := def[..n], def[n];
    assert def == prefix + [c];
    PlayerOfSnoc(prefix, c);
    if c == '|' {
      PlayerCell(prefix);
      RowsBar(prefix);
    } else {
      RowsCell(prefix, c);
      if c != '@' && c != '&' {
        PlayerCell(prefix);
      }
    }
  }

  /** A row written without '|' gives a grid of that one row. */
  lemma {:induction false} RowsOfLine(line: string)
    requires '|' !in line
    ensures Rows(line) == [RowOf(line)]
  {
    if line != [] {
      var n := |line| - 1;
      var prefix, c := line[..n], line[n];
      assert line == prefix + [c];
      RowsOfLine(prefix);
      RowsCell(prefix, c);
      assert forall i :: 0 <= i < n ==> line[i] == prefix[i];
      assert RowOf(line) == RowOf(prefix) + [CellOf(c)];
    }
  }

  /** The rows before and after a '|' are parsed independently. */
  lemma {:induction false} RowsSplit(a: string, b: string)
    ensures Rows(a + "|" + b) == Rows(a) + Rows(b)
  {
    if b == [] {
      assert a + "|" + b == a + ['|'];
      RowsBar(a);
    } else {
      var n := |b| - 1;
      var prefix, c := b[..n], b[n];
      assert b == prefix + [c];
      assert a + "|" + b == (a + "|" + prefix) + [c];
      RowsSplit(a, prefix);
      if c == '|' {
        RowsBar(a + "|" + prefix);
        RowsBar(prefix);
      } else {
        RowsCell(a + "|" + prefix, c);
        RowsCell(prefix, c);
        AddCellAppend(Rows(a), Rows(prefix), CellOf(c));
      }
    }
  }

  lemma AddCellAppend(x: Grid, y: Grid, cell: Cell)
    requires y != []
    ensures AddCell(x + y, cell) == x + AddCell(y, cell)
  {
  }

  /** The rows of a level, each parsed on its own. */
  function RowsOf(lines: seq<string>): (g: Grid)
    requires forall i :: 0 <= i < |lines| ==> '|' !in lines[i]
    ensures |g| == |lines|
    ensures forall i :: 0 <= i < |lines| ==> g[i] == RowOf(lines[i])
  {
    if lines == [] then []
    else RowsOf(lines[..|lines| - 1]) + [RowOf(lines[|lines| - 1])]
  }

  /** A level definition that the level-file splitter joins from rows parses
      back into exactly those rows, one cell per character. */
  lemma {:induction false} RowsOfJoined(lines: seq<string>)
    requires lines != []
    requires forall i :: 0 <= i < |lines| ==> '|' !in lines[i]
    ensures Rows(LevelFile.JoinRows(lines)) == RowsOf(lines)
    ensures |Rows(LevelFile.JoinRows(lines))| == |lines|
    ensures forall i :: 0 <= i < |lines| ==> Rows(LevelFile.JoinRows(lines))[i] == RowOf(lines[i])
  {
    var n := |lines| - 1;
    var init, last := lines[..n], lines[n];
    RowsOfLine(last);
    if n == 0 {
      assert RowsOf(lines) == RowsOf([]) + [RowOf(last)];
    } else {
      RowsOfJoined(init);
      var joined := LevelFile.JoinRows(init);
      assert LevelFile.JoinRows(lines) == joined + "|" + last;
      RowsSplit(joined, last);
    }
  }

  // ---------------------------------------------------------------------
  // Pushing a box (`moveBox`)

  /** A box at `box` can move one cell in direction `d`: the cell beyond it
      is neither a wall nor another box. */
  predicate CanPush(g: Grid, box: Point, d: Direction)
    requires InGrid(g, Move(d, box))
  {
    At(g, Move(d, box)).kind != Wall && !At(g, Move(d, box)).hasBox
  }

  /** The grid after the box at `src` moved to `dst`: the box flag moves, and
      the `onGoal` flag of a goal cell follows it. */
  function PushBox(g: Grid, src: Point, dst: Point): (r: Grid)
    requires InGrid(g, src) && InGrid(g, dst) && src != dst
    ensures SameShape(r, g)
    ensures forall q :: InGrid(g, q) && q != src && q != dst ==> At(r, q) == At(g, q)
    ensures !At(r, src).hasBox && At(r, dst).hasBox
    ensures At(r, src).kind == At(g, src).kind && At(r, src).isGoal == At(g, src).isGoal
    ensures At(r, dst).kind == At(g, dst).kind && At(r, dst).isGoal == At(g, dst).isGoal
  {
    var s, t := At(g, src), At(g, dst);
    var g1 := SetCell(g, src, s.(hasBox := false, onGoal := if s.isGoal then false else s.onGoal));
    SetCell(g1, dst, t.(hasBox := true, onGoal := if t.isGoal then true else t.onGoal))
  }

  /** A push keeps every cell invariant and the number of boxes, and moves
      the count of open goals up by one when the box leaves a goal and down
      by one when it lands on one. */
  lemma PushBoxCounts(g: Grid, src: Point, dst: Point)
    requires InGrid(g, src) && InGrid(g, dst) && src != dst
    requires GridOk(g) && At(g, src).hasBox
    requires At(g, dst).kind != Wall && !At(g, dst).hasBox
    ensures GridOk(PushBox(g, src, dst))
    ensures Boxes(PushBox(g, src, dst)) == Boxes(g)
    ensures Uncovered(PushBox(g, src, dst)) ==
      Uncovered(g) + (if At(g, src).isGoal then 1 else 0) - (if At(g, dst).isGoal then 1 else 0)
  {
    var s, t := At(g, src), At(g, dst);
    assert WellFormed(s) && WellFormed(t);
    var s' := s.(hasBox := false, onGoal := if s.isGoal then false else s.onGoal);
    var t' := t.(hasBox := true, onGoal := if t.isGoal then true else t.onGoal);
    var g1 := SetCell(g, src, s');
    var r := SetCell(g1, dst, t');
    assert r == PushBox(g, src, dst);
    CountSet(g, src, s', IsBox);
    CountSet(g1, dst, t', IsBox);
    CountSet(g, src, s', IsOpenGoal);
    CountSet(g1, dst, t', IsOpenGoal);
    forall y, x | 0 <= y < |r| && 0 <= x < |r[y]|
      ensures WellFormed(r[y][x])
    {
      var q := Point(x, y);
      assert At(r, q) == r[y][x];
      if q != src && q != dst {
        assert At(g, q) == g[y][x];
      }
    }
  }

  /** With one open goal left, a push from a cell that is not a goal
      completes the level exactly when it lands the box on a goal. */
  lemma LastGoal(g: Grid, src: Point, dst: Point)
    requires InGrid(g, src) && InGrid(g, dst) && src != dst
    requires GridOk(g) && At(g, src).hasBox && !At(g, src).isGoal
    requires At(g, dst).kind != Wall && !At(g, dst).hasBox
    requires Uncovered(g) == 1
    ensures Uncovered(PushBox(g, src, dst)) == 0 <==> At(g, dst).isGoal
  {
    PushBoxCounts(g, src, dst);
  }

  // ---------------------------------------------------------------------
  // The level

  class Level {
    var width: int
    var height: int
    var goals: int
    var player: Point
    var grid: Grid  // `map`

    /** What `loadLevel` establishes and every move keeps: one row per unit
        of `height`, the cell invariant everywhere, and `goals` equal to the
        number of goals that no box covers. */
    ghost predicate Valid()
      reads this
    {
      height == |grid| >= 1 && GridOk(grid) && goals == Uncovered(grid)
    }

    /** The player stands inside the grid, on a floor cell without a box. */
    ghost predicate PlayerOk()
      reads this
    {
      InGrid(grid, player) && At(grid, player).kind == Floor && !At(grid, player).hasBox
    }

    /** `loadLevel`: builds the level a definition string describes. When
        the definition has no '@' or '&' the player is left unset. */
    constructor Load(def: string)
      ensures grid == Rows(def) && height == |grid|
      ensures width == Width(def)
      ensures goals == multiset(def)['.'] + multiset(def)['&']
      ensures PlayerOf(def).Some? ==> player == PlayerOf(def).value && PlayerOk()
      ensures Valid()
    {
      var rows: Grid := [[]];
      var count := 0;
      var w, h, x := 0, 0, 0;
      var p := Point(0, 0);
      var i := 0;
      while i < |def|
        invariant Loading(def, i, rows, w, count, p, h, x)
      {
        var c := def[i];
        if c == '|' {
          LoadBar(def, i, rows, w, count, p, h, x);
          // '|': close the current row and open an empty one.
          h := h + 1;
          if x > w {
            w := x;
          }
          x := -1;
          rows := rows + [[]];
        } else {
          // Every other character pushes the cell `CellOf` gives it.
          LoadCell(def, i, rows, w, count, p, h, x);
          if c == '@' || c == '&' {
            p := Point(x, h);
          }
          if c == '.' || c == '&' {
            count := count + 1;
          }
          rows := rows[h := rows[h] + [CellOf(c)]];
        }
        x := x + 1;
        i := i + 1;
      }
      LoadDone(def, rows, w, count, p, h, x);
      width := w;
      height := h + 1;
      goals := count;
      player := p;
      grid := rows;
    }

    /** `moveBox`: pushes the box at `src` one cell in direction `d` when the
        cell beyond it is neither a wall nor a box; otherwise changes
        nothing. */
    method MoveBox(d: Direction, src: Point) returns (moved: bool)
      requires Valid() && InGrid(grid, src) && At(grid, src).hasBox
      requires InGrid(grid, Move(d, src))
      modifies this
      ensures moved == CanPush(old(grid), src, d)
      ensures moved ==> grid == PushBox(old(grid), src, Move(d, src))
      ensures moved ==> (goals == old(goals)
        + (if At(old(grid), src).isGoal then 1 else 0)
        - (if At(old(grid), Move(d, src)).isGoal then 1 else 0))
      ensures !moved ==> grid == old(grid) && goals == old(goals)
      ensures Boxes(grid) == Boxes(old(grid))
      ensures player == old(player) && width == old(width) && height == old(height)
      ensures Valid()
    {
      var dst := Move(d, src);
      if At(grid, dst).kind != Wall && !At(grid, dst).hasBox {
        ghost var g := grid;
        var s, t := At(grid, src), At(grid, dst);
        grid := SetCell(grid, src, s.(hasBox := false));
        grid := SetCell(grid, dst, t.(hasBox := true));
        // The grid is `g` with the cells `ss` at `src` and `tt` at `dst`.
        ghost var ss, tt := s.(hasBox := false), t.(hasBox := true);
        // Leaving a goal uncovers it.
        if At(grid, src).isGoal {
          SetCellSwap(SetCell(g, src, ss), src, dst, ss.(onGoal := false), tt);
          SetCellTwice(g, src, ss, ss.(onGoal := false));
          grid := SetCell(grid, src, At(grid, src).(onGoal := false));
          ss := ss.(onGoal := false);
          goals := goals + 1;
        }
        // Landing on a goal covers it.
        if At(grid, dst).isGoal {
          SetCellTwice(SetCell(g, src, ss), dst, tt, tt.(onGoal := true));
          grid := SetCell(grid, dst, At(grid, dst).(onGoal := true));
          tt := tt.(onGoal := true);
          goals := goals - 1;
        }
        assert grid == SetCell(SetCell(g, src, ss), dst, tt) == PushBox(g, src, dst);
        PushBoxCounts(g, src, dst);
        moved := true;
      } else {
        moved := false;
      }
    }

    /** `update`: moves the player one cell in direction `d`. A wall, or a
        box that cannot be pushed, blocks the move and nothing changes; a box
        that can be pushed moves with the player. Returns whether a push left
        no open goal. */
    method Update(d: Direction) returns (complete: bool)
      requires Valid()
      requires InGrid(grid, Move(d, player))
      requires At(grid, Move(d, player)).hasBox ==> InGrid(grid, Move(d, Move(d, player)))
      modifies this
      ensures Valid() && width == old(width) && height == old(height)
      ensures Boxes(grid) == Boxes(old(grid))
      ensures
        var dest := Move(d, old(player));
        var cell := At(old(grid), dest);
        if cell.kind == Wall || (cell.hasBox && !CanPush(old(grid), dest, d)) then
          player == old(player) && grid == old(grid) && goals == old(goals) && !complete
        else if cell.hasBox then
          player == dest && grid == PushBox(old(grid), dest, Move(d, dest)) && complete == (goals == 0)
        else
          player == dest && grid == old(grid) && goals == old(goals) && !complete
      ensures old(PlayerOk()) ==> PlayerOk()
    {
      var dest := Move(d, player);
      complete := false;
      if At(grid, dest).kind != Wall {
        // A box in the way is pushed first; the player follows only if it moved.
        var pushed := false;
        if At(grid, dest).hasBox {
          pushed := MoveBox(d, dest);
        }
        if pushed {
          player := dest;
          if goals == 0 {
            complete := true;
          }
        } else if !At(grid, dest).hasBox {
          player := dest;
        }
      }
    }
  }

  /** What `Level.Load` has built after reading `def[..i]`: the grid, the
      position `(x, h)` of the next cell, the width, the goal count and the
      player that the prefix defines. */
  ghost predicate Loading(def: string, i: int, rows: Grid, w: int, count: int, p: Point, h: int, x: int)
  {
    && 0 <= i <= |def|
    && rows == Rows(def[..i])
    && h == |rows| - 1 && x == |rows[h]|
    && w == Width(def[..i])
    && count == Uncovered(rows)
    && (PlayerOf(def[..i]).Some? ==> p == PlayerOf(def[..i]).value)
  }

  /** What `Level.Load` holds once it has read the whole definition. */
  lemma LoadDone(def: string, rows: Grid, w: int, count: int, p: Point, h: int, x: int)
    requires Loading(def, |def|, rows, w, count, p, h, x)
    ensures rows == Rows(def) && h + 1 == |rows| && w == Width(def)
    ensures count == Uncovered(rows) && count == multiset(def)['.'] + multiset(def)['&']
    ensures GridOk(rows)
    ensures PlayerOf(def).Some? ==>
      && p == PlayerOf(def).value
      && InGrid(rows, p) && At(rows, p).kind == Floor && !At(rows, p).hasBox
  {
    assert def[..|def|] == def;
    GoalsCounted(def);
    RowsWellFormed(def);
    if PlayerOf(def).Some? {
      PlayerCell(def);
    }
  }

  /** A '|' at `i` starts a new row and measures the row it ends. */
  lemma LoadBar(def: string, i: int, rows: Grid, w: int, count: int, p: Point, h: int, x: int)
    requires Loading(def, i, rows, w, count, p, h, x)
    requires i < |def| && def[i] == '|'
    ensures Loading(def, i + 1, rows + [[]], if x > w then x else w, count, p, h + 1, 0)
  {
    var prefix := def[..i];
    assert def[..i + 1] == prefix + ['|'];
    PlayerOfSnoc(prefix, '|');
    RowsBar(prefix);
    CountNewRow(rows, IsOpenGoal);
    assert (rows + [[]])[..|rows|] == rows;
  }

  /** Any other character at `i` appends its cell to the current row; '@'
      and '&' also place the player there, '.' and '&' add a goal. */
  lemma LoadCell(def: string, i: int, rows: Grid, w: int, count: int, p: Point, h: int, x: int)
    requires Loading(def, i, rows, w, count, p, h, x)
    requires i < |def| && def[i] != '|'
    ensures var c := def[i];
      Loading(def, i + 1, rows[h := rows[h] + [CellOf(c)]], w,
        count + (if c == '.' || c == '&' then 1 else 0),
        if c == '@' || c == '&' then Point(x, h) else p, h, x + 1)
  {
    var prefix, c := def[..i], def[i];
    assert def[..i + 1] == prefix + [c];
    PlayerOfSnoc(prefix, c);
    RowsCell(prefix, c);
    CountAddCell(rows, CellOf(c), IsOpenGoal);
    var next := AddCell(rows, CellOf(c));
    assert next[..|next| - 1] == rows[..h];
  }
}
