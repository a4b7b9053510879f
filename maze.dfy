/** The maze grid: every cell starts with four wall objects of its own, then the
    wiring loop re-points wall references so that neighbouring cells share the
    wall between them. Wall objects live in an arena (`walls`, the open flag of
    each); a cell holds the arena index of each of its four walls. */
module Maze {
  import opened Common

  const MazeWidth: int := 10
  const MazeHeight: int := 6

  /** Arena indices of a cell's four walls. */
  datatype Walls = Walls(top: nat, right: nat, bottom: nat, left: nat)

  datatype MazeCell = MazeCell(x: int, y: int, visited: bool, direction: Direction, walls: Walls)

  function WallRef(w: Walls, d: Direction): nat {
    match d
    case Up => w.top
    case Right => w.right
    case Down => w.bottom
    case Left => w.left
  }

  /** Position of direction d among the four walls created per cell. */
  function WallSlot(d: Direction): (k: nat)
    ensures k < 4
  {
    match d
    case Up => 0
    case Right => 1
    case Down => 2
    case Left => 3
  }

  /** The wall object created for cell (x, y) facing d: cells are created row by
      row, each with its top, right, bottom and left wall in that order. */
  function OwnWall(x: int, y: int, d: Direction): nat
    requires 0 <= x && 0 <= y
  {
    4 * (y * MazeWidth + x) + WallSlot(d)
  }

  predicate InMaze(x: int, y: int) {
    0 <= x < MazeWidth && 0 <= y < MazeHeight
  }

  ghost predicate Shaped(cells: seq<seq<MazeCell>>) {
    |cells| == MazeHeight && forall j :: 0 <= j < MazeHeight ==> |cells[j]| == MazeWidth
  }

  /** The freshly created grid: coordinates (0, 0), not visited, facing Up,
      every cell with its own four walls. */
  function Created(): (cells: seq<seq<MazeCell>>)
    ensures Shaped(cells)
  {
    seq(MazeHeight, j requires 0 <= j => seq(MazeWidth, i requires 0 <= i => MazeCell(0, 0, false, Up,
      Walls(OwnWall(i, j, Up), OwnWall(i, j, Right), OwnWall(i, j, Down), OwnWall(i, j, Left)))))
  }

  // ------------------------------------------------------------------
  // The wiring, as a whole
  // ------------------------------------------------------------------

  /** The walls of cell (x, y) once wired: the right wall is the right
      neighbour's left wall and the bottom wall the lower neighbour's top wall
      when those neighbours exist; the top and left walls stay. */
  function WiredWalls(cells: seq<seq<MazeCell>>, x: int, y: int): Walls
    requires Shaped(cells) && InMaze(x, y)
  {
    var w := cells[y][x].walls;
    Walls(w.top,
          if x < MazeWidth - 1 then cells[y][x + 1].walls.left else w.right,
          if y < MazeHeight - 1 then cells[y + 1][x].walls.top else w.bottom,
          w.left)
  }

  function Wired(cells: seq<seq<MazeCell>>): (r: seq<seq<MazeCell>>)
    requires Shaped(cells)
    ensures Shaped(r)
  {
    seq(MazeHeight, j requires 0 <= j < MazeHeight =>
      seq(MazeWidth, i requires 0 <= i < MazeWidth => cells[j][i].(walls := WiredWalls(cells, i, j))))
  }

  /** After wiring, the two cells on each side of an inner edge hold the same wall. */
  lemma WiredSharesEdges(cells: seq<seq<MazeCell>>, x: int, y: int)
    requires Shaped(cells) && InMaze(x, y)
    ensures x < MazeWidth - 1 ==> Wired(cells)[y][x].walls.right == Wired(cells)[y][x + 1].walls.left
    ensures y < MazeHeight - 1 ==> Wired(cells)[y][x].walls.bottom == Wired(cells)[y + 1][x].walls.top
  {
  }

  /** Wiring only re-points references: every wall a cell holds afterwards was
      held before, by that cell or by the neighbour across the edge; a border
      wall is the cell's own; nothing but the walls changes. */
  lemma WiredReusesWalls(cells: seq<seq<MazeCell>>, x: int, y: int, d: Direction)
    requires Shaped(cells) && InMaze(x, y)
    ensures var r := Wired(cells)[y][x];
            r.x == cells[y][x].x && r.y == cells[y][x].y && r.visited == cells[y][x].visited &&
            r.direction == cells[y][x].direction
    ensures var w := WallRef(Wired(cells)[y][x].walls, d);
            if InMaze(x + Dx(d), y + Dy(d)) && (d == Right || d == Down)
            then w == WallRef(cells[y + Dy(d)][x + Dx(d)].walls, Opposite(d))
            else w == WallRef(cells[y][x].walls, d)
  {
  }

  // ------------------------------------------------------------------
  // Wiring a freshly created grid
  // ------------------------------------------------------------------

  /** The edge of (x, y) facing d and the edge of (i, j) facing e are the same
      edge of the grid. */
  predicate SameEdge(x: int, y: int, d: Direction, i: int, j: int, e: Direction) {
    (x == i && y == j && d == e) ||
    (i == x + Dx(d) && j == y + Dy(d) && e == Opposite(d))
  }

  lemma OwnWallInjective(x: int, y: int, d: Direction, i: int, j: int, e: Direction)
    requires InMaze(x, y) && InMaze(i, j)
    ensures OwnWall(x, y, d) == OwnWall(i, j, e) ==> x == i && y == j && d == e
  {
    if OwnWall(x, y, d) == OwnWall(i, j, e) {
      var p, q := y * MazeWidth + x, j * MazeWidth + i;
      assert 4 * p + WallSlot(d) == 4 * q + WallSlot(e);
      assert p == q;
      assert y == j;
    }
  }

  /** The side whose created wall a wired fresh grid gives cell (x, y) towards
      d: for an inner edge to the right or below, the neighbour's left or top
      side; otherwise the cell's own side. */
  datatype CellSide = CellSide(x: int, y: int, d: Direction)

  function WallOwner(x: int, y: int, d: Direction): (o: CellSide)
    requires InMaze(x, y)
    ensures InMaze(o.x, o.y)
  {
    if d == Right && x < MazeWidth - 1 then CellSide(x + 1, y, Left)
    else if d == Down && y < MazeHeight - 1 then CellSide(x, y + 1, Up)
    else CellSide(x, y, d)
  }

  lemma FreshWired(x: int, y: int, d: Direction)
    requires InMaze(x, y)
    ensures var o := WallOwner(x, y, d);
            WallRef(Wired(Created())[y][x].walls, d) == OwnWall(o.x, o.y, o.d)
  {
    WiredReusesWalls(Created(), x, y, d);
  }

  lemma OwnersMeetOnEdges(x: int, y: int, d: Direction, i: int, j: int, e: Direction)
    requires InMaze(x, y) && InMaze(i, j)
    ensures WallOwner(x, y, d) == WallOwner(i, j, e) <==> SameEdge(x, y, d, i, j, e)
  {
    match d
    case Up => {}
    case Down => {}
    case Left => {}
    case Right => {}
  }

  /** In a wired fresh grid two cell sides hold the same wall object exactly
      when they are the two sides of one edge: neighbours share, nobody else
      does, and all walls are ones created with the grid. */
  lemma FreshWallsIdentifyEdges(x: int, y: int, d: Direction, i: int, j: int, e: Direction)
    requires InMaze(x, y) && InMaze(i, j)
    ensures var g := Wired(Created());
            WallRef(g[y][x].walls, d) == WallRef(g[j][i].walls, e) <==> SameEdge(x, y, d, i, j, e)
    ensures WallRef(Wired(Created())[y][x].walls, d) < 4 * MazeWidth * MazeHeight
  {
    FreshWired(x, y, d);
    FreshWired(i, j, e);
    var o1, o2 := WallOwner(x, y, d), WallOwner(i, j, e);
    OwnWallInjective(o1.x, o1.y, o1.d, o2.x, o2.y, o2.d);
    OwnersMeetOnEdges(x, y, d, i, j, e);
    assert o1.y * MazeWidth + o1.x < MazeWidth * MazeHeight;
  }

  /** Opening a shared wall through one cell opens it for the neighbour too. */
  lemma OpeningIsShared(walls: seq<bool>, x: int, y: int, d: Direction, open: bool)
    requires InMaze(x, y) && InMaze(x + Dx(d), y + Dy(d))
    requires |walls| == 4 * MazeWidth * MazeHeight
    ensures var g := Wired(Created());
            var k := WallRef(g[y][x].walls, d);
            0 <= k < |walls| &&
            walls[k := open][WallRef(g[y + Dy(d)][x + Dx(d)].walls, Opposite(d))] == open
  {
    FreshWallsIdentifyEdges(x, y, d, x + Dx(d), y + Dy(d), Opposite(d));
  }

  // ------------------------------------------------------------------
  // The grid object and its two loops
  // ------------------------------------------------------------------

  /** The cell (x, y) of c after the loop body: each existing neighbour's
      facing wall, read from the grid as it stands, replaces the cell's own. */
  function WireAt(c: seq<seq<MazeCell>>, x: int, y: int): MazeCell
    requires Shaped(c) && InMaze(x, y)
  {
    var w := c[y][x].walls;
    var top := if y > 0 then c[y - 1][x].walls.bottom else w.top;
    var right := if x < MazeWidth - 1 then c[y][x + 1].walls.left else w.right;
    var bottom := if y < MazeHeight - 1 then c[y + 1][x].walls.top else w.bottom;
    var left := if x > 0 then c[y][x - 1].walls.right else w.left;
    c[y][x].(walls := Walls(top, right, bottom, left))
  }

  /** Cell (i, j) of c is as wiring leaves it when row-major it precedes (x, y)
      and as it was created otherwise. */
  ghost predicate CellProgress(c0: seq<seq<MazeCell>>, c: seq<seq<MazeCell>>, i: int, j: int, x: int, y: int)
    requires Shaped(c0) && Shaped(c) && InMaze(i, j)
  {
    c[j][i] == if j < y || (j == y && i < x) then Wired(c0)[j][i] else c0[j][i]
  }

  ghost predicate WiringProgress(c0: seq<seq<MazeCell>>, c: seq<seq<MazeCell>>, x: int, y: int) {
    && Shaped(c0) && Shaped(c)
    && forall i, j {:trigger CellProgress(c0, c, i, j, x, y)} :: InMaze(i, j) ==> CellProgress(c0, c, i, j, x, y)
  }

  lemma WiringStep(c0: seq<seq<MazeCell>>, c: seq<seq<MazeCell>>, x: int, y: int)
    requires InMaze(x, y) && WiringProgress(c0, c, x, y)
    ensures WiringProgress(c0, c[y := c[y][x := WireAt(c, x, y)]], x + 1, y)
  {
    var c' := c[y := c[y][x := WireAt(c, x, y)]];
    assert CellProgress(c0, c, x, y, x, y);
    if y > 0 {
      assert CellProgress(c0, c, x, y - 1, x, y);
    }
    if x < MazeWidth - 1 {
      assert CellProgress(c0, c, x + 1, y, x, y);
    }
    if y < MazeHeight - 1 {
      assert CellProgress(c0, c, x, y + 1, x, y);
    }
    if x > 0 {
      assert CellProgress(c0, c, x - 1, y, x, y);
    }
    assert c'[y][x] == Wired(c0)[y][x];
    forall i, j | InMaze(i, j) ensures CellProgress(c0, c', i, j, x + 1, y) {
      assert CellProgress(c0, c, i, j, x, y);
    }
  }

  lemma WiringNextRow(c0: seq<seq<MazeCell>>, c: seq<seq<MazeCell>>, y: int)
    requires WiringProgress(c0, c, MazeWidth, y)
    ensures WiringProgress(c0, c, 0, y + 1)
  {
    forall i, j | InMaze(i, j) ensures CellProgress(c0, c, i, j, 0, y + 1) {
      assert CellProgress(c0, c, i, j, MazeWidth, y);
    }
  }

  lemma WiringDone(c0: seq<seq<MazeCell>>, c: seq<seq<MazeCell>>)
    requires WiringProgress(c0, c, 0, MazeHeight)
    ensures c == Wired(c0)
  {
    forall j | 0 <= j < MazeHeight ensures c[j] == Wired(c0)[j] {
      forall i | 0 <= i < MazeWidth ensures c[j][i] == Wired(c0)[j][i] {
        assert CellProgress(c0, c, i, j, 0, MazeHeight);
      }
    }
  }

  class MazeGrid {
    var cells: seq<seq<MazeCell>>
    /** The open flag of every wall object ever created. */
    var walls: seq<bool>

    /** Builds the maze as the module does on load: creates every cell with
        four walls whose open flags are the draws (in creation order), sets
        the coordinates, then wires shared walls. */
    constructor(draws: seq<bool>)
      requires |draws| == 4 * MazeWidth * MazeHeight
      ensures walls == draws && Shaped(cells)
      ensures forall j, i :: 0 <= j < MazeHeight && 0 <= i < MazeWidth ==>
                cells[j][i] == MazeCell(i, j, false, Up, Wired(Created())[j][i].walls)
    {
      cells := Created();
      walls := draws;
      new;
      InitializeCoordinates();
      ghost var placed := cells;
      ShareWalls();
      forall j, i | 0 <= j < MazeHeight && 0 <= i < MazeWidth
        ensures cells[j][i] == MazeCell(i, j, false, Up, Wired(Created())[j][i].walls)
      {
        assert WiredWalls(placed, i, j) == WiredWalls(Created(), i, j) by {
          if i < MazeWidth - 1 { assert placed[j][i + 1].walls == Created()[j][i + 1].walls; }
          if j < MazeHeight - 1 { assert placed[j + 1][i].walls == Created()[j + 1][i].walls; }
        }
      }
    }

    /** The coordinate loop: every cell learns its position; nothing else changes. */
    method InitializeCoordinates()
      requires Shaped(cells)
      modifies this
      ensures walls == old(walls) && Shaped(cells)
      ensures forall j, i :: 0 <= j < MazeHeight && 0 <= i < MazeWidth ==>
                cells[j][i] == old(cells)[j][i].(x := i, y := j)
    {
      ghost var c0: seq<seq<MazeCell>> := cells;
      for y := 0 to MazeHeight
        invariant Shaped(cells) && walls == old(walls)
        invariant forall j, i :: 0 <= j < MazeHeight && 0 <= i < MazeWidth ==>
                    cells[j][i] == if j < y then c0[j][i].(x := i, y := j) else c0[j][i]
      {
        for x := 0 to MazeWidth
          invariant Shaped(cells) && walls == old(walls)
          invariant forall j, i :: 0 <= j < MazeHeight && 0 <= i < MazeWidth ==>
                      cells[j][i] == if j < y || (j == y && i < x) then c0[j][i].(x := i, y := j) else c0[j][i]
        {
          cells := cells[y := cells[y][x := cells[y][x].(x := x)]];
          cells := cells[y := cells[y][x := cells[y][x].(y := y)]];
        }
      }
    }

    /** The wiring loop, row by row: each cell takes over the facing wall of
        every existing neighbour. The result is the wired grid: neighbours
        share the wall between them. */
    method ShareWalls()
      requires Shaped(cells)
      modifies this
      ensures walls == old(walls)
      ensures cells == Wired(old(cells))
    {
      ghost var c0: seq<seq<MazeCell>> := cells;
      for y := 0 to MazeHeight
        invariant WiringProgress(c0, cells, 0, y) && walls == old(walls)
      {
        for x := 0 to MazeWidth
          invariant WiringProgress(c0, cells, x, y) && walls == old(walls)
        {
          WiringStep(c0, cells, x, y);
          WireCell(x, y);
        }
        WiringNextRow(c0, cells, y);
      }
      WiringDone(c0, cells);
    }

    /** The body of the wiring loop for cell (x, y). */
    method WireCell(x: int, y: int)
      requires Shaped(cells) && InMaze(x, y)
      modifies this
      ensures walls == old(walls)
      ensures cells == old(cells)[y := old(cells)[y][x := WireAt(old(cells), x, y)]]
    {
      ghost var c := cells;
      var w := cells[y][x].walls;
      if y > 0 {
        w := w.(top := cells[y - 1][x].walls.bottom);
      }
      if x < MazeWidth - 1 {
        w := w.(right := cells[y][x + 1].walls.left);
      }
      if y < MazeHeight - 1 {
        w := w.(bottom := cells[y + 1][x].walls.top);
      }
      if x > 0 {
        w := w.(left := cells[y][x - 1].walls.right);
      }
      cells := cells[y := cells[y][x := cells[y][x].(walls := w)]];
    }
  }
}
