/** Values and pure functions behind the tile-possibility grid of the collapse draft:
    tiles and their rotations, per-cell side sets, the neighbour-compatibility filter,
    the dependency flags and the grid invariants that propagation keeps. */
module CollapseGrid {
  import opened Common

  /** The draft works on one fixed grid of 10 columns and 6 rows. */
  const MapWidth: int := 10
  const MapHeight: int := 6

  /** The draft's own tile type: four sides and nothing else. It is distinct on
      purpose from Utils.Tile, the palette tile that also records its tilemap
      image and orientation, as collapse.ts declares its own local Tile type. */
  datatype Tile = Tile(top: Side, right: Side, bottom: Side, left: Side)

  /** The side a tile shows in direction d. */
  function SideOf(t: Tile, d: Direction): Side {
    match d
    case Up => t.top
    case Right => t.right
    case Down => t.bottom
    case Left => t.left
  }

  /** The first rotation variant: left goes to top, top to right, right to bottom, bottom to left. */
  function Rotate(t: Tile): Tile {
    Tile(t.left, t.top, t.right, t.bottom)
  }

  /** Where face d of a tile ends up after one Rotate. */
  function Turn(d: Direction): Direction {
    match d
    case Left => Up
    case Up => Right
    case Right => Down
    case Down => Left
  }

  lemma RotateMovesFaces(t: Tile, d: Direction)
    ensures SideOf(Rotate(t), Turn(d)) == SideOf(t, d)
    ensures Rotate(Rotate(Rotate(Rotate(t)))) == t
  {
  }

  /** The five hand-written tiles the palette starts from. */
  const BaseTiles: seq<Tile> := [
    Tile(Field, City, City, Road),
    Tile(Field, Field, Field, Field),
    Tile(City, Field, Road, Field),
    Tile(Road, Road, Road, Field),
    Tile(City, Field, Field, Road)
  ]

  /** The palette is closed under rotation. */
  ghost predicate RotationClosed(p: seq<Tile>) {
    forall t :: t in p ==> Rotate(t) in p
  }

  // ----- side sets -----

  datatype SideSets = SideSets(top: set<Side>, right: set<Side>, bottom: set<Side>, left: set<Side>)

  function SideSet(s: SideSets, d: Direction): set<Side> {
    match d
    case Up => s.top
    case Right => s.right
    case Down => s.bottom
    case Left => s.left
  }

  /** The side sets derived from a list of possibilities: field d of every tile, deduplicated. */
  function SidesOf(ts: seq<Tile>): (s: SideSets)
    ensures forall d, t {:trigger SideOf(t, d), SideSet(s, d)} :: t in ts ==> SideOf(t, d) in SideSet(s, d)
    ensures forall d, v :: v in SideSet(s, d) ==> exists t :: t in ts && SideOf(t, d) == v
  {
    SideSets(set t | t in ts :: t.top, set t | t in ts :: t.right,
             set t | t in ts :: t.bottom, set t | t in ts :: t.left)
  }

  /** In a rotation-closed palette every side value occurs on every face, so each
      face's side set admits every side of every tile. */
  lemma {:induction false} RotationClosedFacesAgree(p: seq<Tile>, t: Tile, d: Direction, e: Direction)
    requires RotationClosed(p) && t in p
    ensures SideOf(t, d) in SideSet(SidesOf(p), e)
  {
    var t1 := Rotate(t);
    var t2 := Rotate(t1);
    var t3 := Rotate(t2);
    assert t1 in p && t2 in p && t3 in p;
    RotateMovesFaces(t, d);
    RotateMovesFaces(t1, Turn(d));
    RotateMovesFaces(t2, Turn(Turn(d)));
    var u := if e == d then t else if e == Turn(d) then t1 else if e == Turn(Turn(d)) then t2 else t3;
    assert u in p && SideOf(u, e) == SideOf(t, d);
  }

  // ----- cells and the grid -----

  /** One cell of the map. `changed` holds the directions d whose dependency record
      (the record pointing at the neighbour in direction d) has its hasChanged flag set. */
  datatype MapTile = MapTile(x: int, y: int, possibilities: seq<Tile>, collapsed: bool,
                             changed: set<Direction>, sides: SideSets)

  /** Rows first: g[y][x]. */
  type Grid = seq<seq<MapTile>>

  predicate InBounds(x: int, y: int) {
    0 <= x < MapWidth && 0 <= y < MapHeight
  }

  predicate HasNeighbour(x: int, y: int, d: Direction) {
    InBounds(x + Dx(d), y + Dy(d))
  }

  /** (i, j) is (x, y) itself or one of its four neighbours. */
  predicate Near(x: int, y: int, i: int, j: int) {
    (i == x && (j == y || j == y - 1 || j == y + 1)) || (j == y && (i == x - 1 || i == x + 1))
  }

  ghost predicate WellShaped(g: Grid) {
    |g| == MapHeight && forall j :: 0 <= j < MapHeight ==> |g[j]| == MapWidth
  }

  function SetCell(g: Grid, x: int, y: int, c: MapTile): (r: Grid)
    requires WellShaped(g) && InBounds(x, y)
    ensures WellShaped(r)
    ensures forall j, i :: 0 <= j < MapHeight && 0 <= i < MapWidth ==>
              r[j][i] == (if i == x && j == y then c else g[j][i])
  {
    g[y := g[y][x := c]]
  }

  /** The neighbours a cell depends on, in the order they are pushed:
      left, right, upper, lower, each only when it is inside the grid. */
  function Dependencies(x: int, y: int): seq<Direction> {
    (if x > 0 then [Left] else []) + (if x < MapWidth - 1 then [Right] else []) +
    (if y > 0 then [Up] else []) + (if y < MapHeight - 1 then [Down] else [])
  }

  /** The dependencies are exactly the in-bounds neighbours, each once. */
  lemma DependenciesExact(x: int, y: int)
    requires InBounds(x, y)
    ensures forall d :: d in Dependencies(x, y) <==> HasNeighbour(x, y, d)
    ensures forall a, b :: 0 <= a < b < |Dependencies(x, y)| ==>
              Dependencies(x, y)[a] != Dependencies(x, y)[b]
  {
  }

  /** A neighbour of (x, y) is reached through one of its dependencies. */
  lemma NearDependency(x: int, y: int, i: int, j: int) returns (m: int)
    requires InBounds(x, y) && InBounds(i, j) && Near(x, y, i, j) && !(i == x && j == y)
    ensures 0 <= m < |Dependencies(x, y)|
    ensures i == x + Dx(Dependencies(x, y)[m]) && j == y + Dy(Dependencies(x, y)[m])
  {
    var d := if i == x - 1 then Left else if i == x + 1 then Right else if j == y - 1 then Up else Down;
    DependenciesExact(x, y);
    assert HasNeighbour(x, y, d);
    m :| 0 <= m < |Dependencies(x, y)| && Dependencies(x, y)[m] == d;
  }

  /** The first record in ds (belonging to the cell at (fx, fy)) that points at (x, y). */
  function FindDependency(ds: seq<Direction>, fx: int, fy: int, x: int, y: int): Option<Direction> {
    if ds == [] then None
    else if fx + Dx(ds[0]) == x && fy + Dy(ds[0]) == y then Some(ds[0])
    else FindDependency(ds[1..], fx, fy, x, y)
  }

  /** The `reverse` of the dependency of (x, y) in direction d: looked up among the
      neighbour's dependencies as the record pointing back at (x, y). */
  function Reverse(x: int, y: int, d: Direction): Option<Direction> {
    FindDependency(Dependencies(x + Dx(d), y + Dy(d)), x + Dx(d), y + Dy(d), x, y)
  }

  lemma {:induction false} FindDependencyUnique(ds: seq<Direction>, fx: int, fy: int, x: int, y: int, e: Direction)
    requires e in ds && fx + Dx(e) == x && fy + Dy(e) == y
    requires forall d :: d in ds && d != e ==> fx + Dx(d) != x || fy + Dy(d) != y
    ensures FindDependency(ds, fx, fy, x, y) == Some(e)
    decreases |ds|
  {
    if ds[0] != e {
      assert FindDependency(ds[1..], fx, fy, x, y) == Some(e) by {
        assert e in ds[1..];
        FindDependencyUnique(ds[1..], fx, fy, x, y, e);
      }
    }
  }

  /** Every dependency's reverse exists and is the neighbour's record in the opposite direction. */
  lemma ReverseIsOpposite(x: int, y: int, d: Direction)
    requires InBounds(x, y) && d in Dependencies(x, y)
    ensures Reverse(x, y, d) == Some(Opposite(d))
    ensures HasNeighbour(x + Dx(d), y + Dy(d), Opposite(d))
  {
    var nx, ny := x + Dx(d), y + Dy(d);
    DependenciesExact(x, y);
    DependenciesExact(nx, ny);
    FindDependencyUnique(Dependencies(nx, ny), nx, ny, x, y, Opposite(d));
  }

  // ----- the neighbour-compatibility filter -----

  /** The neighbour in direction d, if any, admits the side t shows towards it. */
  ghost predicate FitsSide(g: Grid, x: int, y: int, d: Direction, t: Tile)
    requires WellShaped(g) && InBounds(x, y)
  {
    HasNeighbour(x, y, d) ==> SideOf(t, d) in SideSet(g[y + Dy(d)][x + Dx(d)].sides, Opposite(d))
  }

  ghost predicate Compatible(g: Grid, x: int, y: int, t: Tile)
    requires WellShaped(g) && InBounds(x, y)
  {
    forall d :: FitsSide(g, x, y, d, t)
  }

  /** The four checks, in the order they are made: left, right, upper, lower. */
  predicate PassesChecks(g: Grid, x: int, y: int, t: Tile)
    requires WellShaped(g) && InBounds(x, y)
  {
    && !(x > 0 && t.left !in g[y][x - 1].sides.right)
    && !(x < MapWidth - 1 && t.right !in g[y][x + 1].sides.left)
    && !(y > 0 && t.top !in g[y - 1][x].sides.bottom)
    && !(y < MapHeight - 1 && t.bottom !in g[y + 1][x].sides.top)
  }

  lemma ChecksAreCompatibility(g: Grid, x: int, y: int, t: Tile)
    requires WellShaped(g) && InBounds(x, y)
    ensures PassesChecks(g, x, y, t) <==> Compatible(g, x, y, t)
  {
    if PassesChecks(g, x, y, t) {
      forall d ensures FitsSide(g, x, y, d, t) {
      }
    } else {
      if x > 0 && t.left !in g[y][x - 1].sides.right {
        assert !FitsSide(g, x, y, Left, t);
      } else if x < MapWidth - 1 && t.right !in g[y][x + 1].sides.left {
        assert !FitsSide(g, x, y, Right, t);
      } else if y > 0 && t.top !in g[y - 1][x].sides.bottom {
        assert !FitsSide(g, x, y, Up, t);
      } else {
        assert !FitsSide(g, x, y, Down, t);
      }
    }
  }

  /** The possibilities that every existing neighbour's facing side set admits,
      in their original order. */
  function FittingTiles(g: Grid, x: int, y: int, poss: seq<Tile>): (r: seq<Tile>)
    requires WellShaped(g) && InBounds(x, y)
    ensures IsSubsequence(r, poss)
    ensures forall t :: multiset(r)[t] == if Compatible(g, x, y, t) then multiset(poss)[t] else 0
  {
    if poss == [] then []
    else
      var t := poss[0];
      var rest := FittingTiles(g, x, y, poss[1..]);
      ChecksAreCompatibility(g, x, y, t);
      assert poss == [t] + poss[1..];
      if PassesChecks(g, x, y, t) then [t] + rest else rest
  }

  /** Filtering one more tile at the end extends the result by that tile when it passes the checks. */
  lemma {:induction false} FittingTilesAppend(g: Grid, x: int, y: int, poss: seq<Tile>, t: Tile)
    requires WellShaped(g) && InBounds(x, y)
    ensures FittingTiles(g, x, y, poss + [t]) ==
            FittingTiles(g, x, y, poss) + (if PassesChecks(g, x, y, t) then [t] else [])
    decreases |poss|
  {
    if poss == [] {
      assert [t][1..] == [];
    } else {
      assert (poss + [t])[1..] == poss[1..] + [t];
      FittingTilesAppend(g, x, y, poss[1..], t);
    }
  }

  /** Filtering keeps a tile exactly when it is a possibility every neighbour admits. */
  lemma FittingTilesMembers(g: Grid, x: int, y: int, poss: seq<Tile>, t: Tile)
    requires WellShaped(g) && InBounds(x, y)
    ensures t in FittingTiles(g, x, y, poss) <==> t in poss && Compatible(g, x, y, t)
  {
    var r := FittingTiles(g, x, y, poss);
    assert t in r <==> multiset(r)[t] > 0;
    assert t in poss <==> multiset(poss)[t] > 0;
  }

  // ----- grid invariants -----

  /** Coordinates match the position, the side sets are derived from the possibilities,
      and flags are only set on records that exist. */
  ghost predicate CellOk(g: Grid, x: int, y: int)
    requires WellShaped(g) && InBounds(x, y)
  {
    && g[y][x].x == x && g[y][x].y == y
    && g[y][x].sides == SidesOf(g[y][x].possibilities)
    && (forall d :: d in g[y][x].changed ==> HasNeighbour(x, y, d))
  }

  ghost predicate WellFormed(g: Grid) {
    WellShaped(g) && forall x, y {:trigger CellOk(g, x, y)} :: InBounds(x, y) ==> CellOk(g, x, y)
  }

  /** An uncollapsed cell fits every neighbour whose record has no change flag. */
  ghost predicate CellSound(g: Grid, x: int, y: int)
    requires WellShaped(g) && InBounds(x, y)
  {
    forall d, t :: d !in g[y][x].changed && t in g[y][x].possibilities ==> FitsSide(g, x, y, d, t)
  }

  ghost predicate FlagsSound(g: Grid)
    requires WellShaped(g)
  {
    forall x, y {:trigger CellSound(g, x, y)} :: InBounds(x, y) && !g[y][x].collapsed ==> CellSound(g, x, y)
  }

  /** An uncollapsed cell with a set flag: propagation still owes it a visit. */
  ghost predicate Pending(g: Grid, x: int, y: int)
    requires WellShaped(g) && InBounds(x, y)
  {
    !g[y][x].collapsed && g[y][x].changed != {}
  }

  ghost predicate Quiescent(g: Grid)
    requires WellShaped(g)
  {
    forall x, y {:trigger Pending(g, x, y)} :: InBounds(x, y) ==> !Pending(g, x, y)
  }

  /** Every possibility of the collapsed cell at (x, y) matches every possibility of its
      collapsed neighbour in direction d along their shared edge. */
  ghost predicate PairAgrees(g: Grid, x: int, y: int, d: Direction)
    requires WellShaped(g) && InBounds(x, y) && HasNeighbour(x, y, d)
  {
    forall t, u :: t in g[y][x].possibilities && u in g[y + Dy(d)][x + Dx(d)].possibilities ==>
      SideOf(t, d) == SideOf(u, Opposite(d))
  }

  /** If (x, y) and its neighbour in direction d are both collapsed, they agree. */
  ghost predicate EdgeAgrees(g: Grid, x: int, y: int, d: Direction)
    requires WellShaped(g)
  {
    (InBounds(x, y) && HasNeighbour(x, y, d) && g[y][x].collapsed &&
     g[y + Dy(d)][x + Dx(d)].collapsed) ==> PairAgrees(g, x, y, d)
  }

  ghost predicate CollapsedAgree(g: Grid)
    requires WellShaped(g)
  {
    forall x, y, d :: EdgeAgrees(g, x, y, d)
  }

  ghost predicate AtMostOneAt(g: Grid, x: int, y: int)
    requires WellShaped(g) && InBounds(x, y)
  {
    g[y][x].collapsed ==> |g[y][x].possibilities| <= 1
  }

  ghost predicate CollapsedAtMostOne(g: Grid)
    requires WellShaped(g)
  {
    forall x, y {:trigger AtMostOneAt(g, x, y)} :: InBounds(x, y) ==> AtMostOneAt(g, x, y)
  }

  // ----- relations between two grids -----

  ghost predicate CellNarrowed(g0: Grid, g1: Grid, x: int, y: int)
    requires WellShaped(g0) && WellShaped(g1) && InBounds(x, y)
  {
    && IsSubsequence(g1[y][x].possibilities, g0[y][x].possibilities)
    && g1[y][x].collapsed == g0[y][x].collapsed
    && g1[y][x].x == g0[y][x].x && g1[y][x].y == g0[y][x].y
  }

  /** Every cell keeps its coordinates and collapsed flag, and its possibilities only lose elements. */
  ghost predicate Narrowed(g0: Grid, g1: Grid)
    requires WellShaped(g0) && WellShaped(g1)
  {
    forall x, y {:trigger CellNarrowed(g0, g1, x, y)} :: InBounds(x, y) ==> CellNarrowed(g0, g1, x, y)
  }

  ghost predicate KeptIfCollapsed(g0: Grid, g1: Grid, x: int, y: int, i: int, j: int)
    requires WellShaped(g0) && WellShaped(g1) && InBounds(i, j)
  {
    (i != x || j != y) && g0[j][i].collapsed ==> g1[j][i].possibilities == g0[j][i].possibilities
  }

  /** Collapsed cells other than (x, y) keep their possibilities. */
  ghost predicate KeepsCollapsed(g0: Grid, g1: Grid, x: int, y: int)
    requires WellShaped(g0) && WellShaped(g1)
  {
    forall i, j {:trigger KeptIfCollapsed(g0, g1, x, y, i, j)} :: InBounds(i, j) ==> KeptIfCollapsed(g0, g1, x, y, i, j)
  }

  /** Every cell pending afterwards was pending before and is neither (x, y) nor a neighbour of it. */
  ghost predicate PendingShrinks(g0: Grid, g1: Grid, x: int, y: int)
    requires WellShaped(g0) && WellShaped(g1)
  {
    forall i, j {:trigger Pending(g1, i, j)} :: InBounds(i, j) && Pending(g1, i, j) ==> Pending(g0, i, j) && !Near(x, y, i, j)
  }

  lemma {:induction false} NarrowedTransitive(g0: Grid, g1: Grid, g2: Grid)
    requires WellShaped(g0) && WellShaped(g1) && WellShaped(g2)
    requires Narrowed(g0, g1) && Narrowed(g1, g2)
    ensures Narrowed(g0, g2)
  {
    forall x, y | InBounds(x, y) ensures CellNarrowed(g0, g2, x, y) {
      assert CellNarrowed(g0, g1, x, y) && CellNarrowed(g1, g2, x, y);
      SubsequenceTransitive(g2[y][x].possibilities, g1[y][x].possibilities, g0[y][x].possibilities);
    }
  }

  /** Narrowing never breaks agreement between collapsed neighbours, nor makes a collapsed cell larger. */
  lemma {:induction false} NarrowingKeepsAgreement(g0: Grid, g1: Grid)
    requires WellShaped(g0) && WellShaped(g1) && Narrowed(g0, g1)
    requires CollapsedAgree(g0) && CollapsedAtMostOne(g0)
    ensures CollapsedAgree(g1) && CollapsedAtMostOne(g1)
  {
    forall x, y | InBounds(x, y) ensures CellNarrowed(g0, g1, x, y) {
    }
    forall x, y | InBounds(x, y) ensures AtMostOneAt(g1, x, y) {
      assert AtMostOneAt(g0, x, y);
      SubsequenceBounds(g1[y][x].possibilities, g0[y][x].possibilities);
    }
    forall x, y, d ensures EdgeAgrees(g1, x, y, d) {
      if InBounds(x, y) && HasNeighbour(x, y, d) && g1[y][x].collapsed &&
         g1[y + Dy(d)][x + Dx(d)].collapsed
      {
        var nx, ny := x + Dx(d), y + Dy(d);
        SubsequenceBounds(g1[y][x].possibilities, g0[y][x].possibilities);
        SubsequenceBounds(g1[ny][nx].possibilities, g0[ny][nx].possibilities);
        assert EdgeAgrees(g0, x, y, d);
      }
    }
  }

  // ----- sums used as the termination measure of propagation -----

  function RowSum(row: seq<MapTile>, f: MapTile -> nat): nat {
    if row == [] then 0 else f(row[0]) + RowSum(row[1..], f)
  }

  function GridSum(g: Grid, f: MapTile -> nat): nat {
    if g == [] then 0 else RowSum(g[0], f) + GridSum(g[1..], f)
  }

  function PossibilityCount(c: MapTile): nat {
    |c.possibilities|
  }

  function FlagCount(c: MapTile): nat {
    |c.changed|
  }

  function TotalPossibilities(g: Grid): nat {
    GridSum(g, PossibilityCount)
  }

  function TotalFlags(g: Grid): nat {
    GridSum(g, FlagCount)
  }

  lemma {:induction false} RowSumExcept(a: seq<MapTile>, b: seq<MapTile>, i: int, f: MapTile -> nat)
    requires |a| == |b|
    requires forall k :: 0 <= k < |a| && k != i ==> f(a[k]) == f(b[k])
    ensures 0 <= i < |a| ==> RowSum(b, f) == RowSum(a, f) - f(a[i]) + f(b[i])
    ensures !(0 <= i < |a|) ==> RowSum(b, f) == RowSum(a, f)
    decreases |a|
  {
    if a != [] {
      RowSumExcept(a[1..], b[1..], i - 1, f);
    }
  }

  lemma {:induction false} GridSumExcept(g: seq<seq<MapTile>>, h: seq<seq<MapTile>>, x: int, y: int, f: MapTile -> nat)
    requires |g| == |h| && forall j :: 0 <= j < |g| ==> |g[j]| == |h[j]|
    requires forall j, i :: 0 <= j < |g| && 0 <= i < |g[j]| && (i != x || j != y) ==> f(g[j][i]) == f(h[j][i])
    requires 0 <= y < |g| && 0 <= x < |g[y]|
    ensures GridSum(h, f) == GridSum(g, f) - f(g[y][x]) + f(h[y][x])
    decreases |g|
  {
    if y == 0 {
      RowSumExcept(g[0], h[0], x, f);
      RowsSumEqual(g[1..], h[1..], f);
    } else {
      RowSumExcept(g[0], h[0], -1, f);
      GridSumExcept(g[1..], h[1..], x, y - 1, f);
    }
  }

  lemma {:induction false} RowsSumEqual(g: seq<seq<MapTile>>, h: seq<seq<MapTile>>, f: MapTile -> nat)
    requires |g| == |h| && forall j :: 0 <= j < |g| ==> |g[j]| == |h[j]|
    requires forall j, i :: 0 <= j < |g| && 0 <= i < |g[j]| ==> f(g[j][i]) == f(h[j][i])
    ensures GridSum(h, f) == GridSum(g, f)
    decreases |g|
  {
    if g != [] {
      RowSumExcept(g[0], h[0], -1, f);
      RowsSumEqual(g[1..], h[1..], f);
    }
  }

  /** Lexicographic order on (total possibilities, total flags). */
  predicate LexLess(a0: nat, b0: nat, a1: nat, b1: nat) {
    a0 < a1 || (a0 == a1 && b0 < b1)
  }

  /** The measure went down, or stayed put while the starting cell had no flag of its own. */
  ghost predicate Progress(g0: Grid, g1: Grid, x: int, y: int)
    requires WellShaped(g0) && InBounds(x, y)
  {
    LexLess(TotalPossibilities(g1), TotalFlags(g1), TotalPossibilities(g0), TotalFlags(g0)) ||
    (TotalPossibilities(g1) == TotalPossibilities(g0) && TotalFlags(g1) == TotalFlags(g0) &&
     g0[y][x].changed == {})
  }

  // ----- flag updates -----

  /** The two cells are equal apart from their change flags. */
  predicate SameButFlags(a: MapTile, b: MapTile) {
    a.x == b.x && a.y == b.y && a.possibilities == b.possibilities &&
    a.collapsed == b.collapsed && a.sides == b.sides
  }

  /** Whether flag e of (i, j) is set after the cell at (x, y) walked its dependencies ds,
      clearing its own record's flag when `clear` and setting the reverse record's flag when `mark`. */
  predicate FlagAfter(g: Grid, x: int, y: int, ds: seq<Direction>, clear: bool, mark: bool,
                      i: int, j: int, e: Direction)
    requires WellShaped(g) && InBounds(i, j)
  {
    if i == x && j == y then e in g[j][i].changed && !(clear && e in ds)
    else e in g[j][i].changed ||
         (mark && Opposite(e) in ds && i == x + Dx(Opposite(e)) && j == y + Dy(Opposite(e)))
  }

  /** Flag e of the cell (fx, fy) switched on or off; every other flag and field kept. */
  function SetFlag(g: Grid, fx: int, fy: int, e: Direction, on: bool): (r: Grid)
    requires WellShaped(g) && InBounds(fx, fy)
    ensures WellShaped(r)
    ensures forall j, i :: InBounds(i, j) ==> SameButFlags(g[j][i], r[j][i])
    ensures forall j, i, f :: InBounds(i, j) ==>
              (f in r[j][i].changed <==> if i == fx && j == fy && f == e then on else f in g[j][i].changed)
  {
    var c := g[fy][fx];
    SetCell(g, fx, fy, c.(changed := if on then c.changed + {e} else c.changed - {e}))
  }

  /** One dependency record of (x, y): clear its own flag, and set the flag of its reverse,
      which is the neighbour's record in the opposite direction (see ReverseIsOpposite). */
  function NotifyOne(g: Grid, x: int, y: int, d: Direction, clear: bool, mark: bool): (r: Grid)
    requires WellShaped(g) && InBounds(x, y) && HasNeighbour(x, y, d)
    ensures WellShaped(r)
    ensures forall j, i :: InBounds(i, j) ==> SameButFlags(g[j][i], r[j][i])
    ensures forall j, i, e :: InBounds(i, j) ==>
              (e in r[j][i].changed <==> FlagAfter(g, x, y, [d], clear, mark, i, j, e))
  {
    var g1 := if clear then SetFlag(g, x, y, d, false) else g;
    if mark then SetFlag(g1, x + Dx(d), y + Dy(d), Opposite(d), true) else g1
  }

  /** The records ds of (x, y), walked in order. */
  function NotifyAll(g: Grid, x: int, y: int, ds: seq<Direction>, clear: bool, mark: bool): (r: Grid)
    requires WellShaped(g) && InBounds(x, y)
    requires forall d :: d in ds ==> HasNeighbour(x, y, d)
    ensures WellShaped(r)
    ensures forall j, i :: InBounds(i, j) ==> SameButFlags(g[j][i], r[j][i])
    ensures forall j, i, e :: InBounds(i, j) ==>
              (e in r[j][i].changed <==> FlagAfter(g, x, y, ds, clear, mark, i, j, e))
    decreases |ds|
  {
    if ds == [] then g
    else
      var last := ds[|ds| - 1];
      assert ds == ds[..|ds| - 1] + [last];
      var prev := NotifyAll(g, x, y, ds[..|ds| - 1], clear, mark);
      NotifyOne(prev, x, y, last, clear, mark)
  }

  /** Walking one more record extends the walk by one NotifyOne. */
  lemma NotifyAllStep(g: Grid, x: int, y: int, ds: seq<Direction>, k: int, clear: bool, mark: bool)
    requires WellShaped(g) && InBounds(x, y) && 0 <= k < |ds|
    requires forall d :: d in ds ==> HasNeighbour(x, y, d)
    ensures forall d :: d in ds[..k] ==> HasNeighbour(x, y, d)
    ensures NotifyAll(g, x, y, ds[..k + 1], clear, mark) ==
            NotifyOne(NotifyAll(g, x, y, ds[..k], clear, mark), x, y, ds[k], clear, mark)
  {
    assert ds[..k + 1][..k] == ds[..k];
  }

  // ----- the refilter step of propagation -----

  /** (x, y) after its possibilities were refiltered and its side sets recomputed. */
  function FilteredCell(g: Grid, x: int, y: int): (c: MapTile)
    requires WellShaped(g) && InBounds(x, y)
  {
    var poss := FittingTiles(g, x, y, g[y][x].possibilities);
    g[y][x].(possibilities := poss, sides := SidesOf(poss))
  }

  /** The grid after one visit of propagation to (x, y), before it recurses: refiltered cell,
      own flags cleared, and the reverse flags set when the number of possibilities changed. */
  function Refiltered(g: Grid, x: int, y: int): (r: Grid)
    requires WellShaped(g) && InBounds(x, y)
    ensures WellShaped(r)
  {
    var c := FilteredCell(g, x, y);
    DependenciesExact(x, y);
    NotifyAll(SetCell(g, x, y, c), x, y, Dependencies(x, y), true,
              |c.possibilities| != |g[y][x].possibilities|)
  }

  /** What the refilter step does to each cell. */
  lemma RefilteredCells(g: Grid, x: int, y: int)
    requires WellFormed(g) && InBounds(x, y)
    ensures var r := Refiltered(g, x, y);
      && SameButFlags(r[y][x], FilteredCell(g, x, y))
      && r[y][x].changed == {}
      && forall i, j :: InBounds(i, j) && !(i == x && j == y) ==>
           && SameButFlags(g[j][i], r[j][i])
           && forall e :: e in r[j][i].changed <==>
                e in g[j][i].changed ||
                (|FilteredCell(g, x, y).possibilities| != |g[y][x].possibilities| &&
                 i == x + Dx(Opposite(e)) && j == y + Dy(Opposite(e)))
  {
    var r: Grid := Refiltered(g, x, y);
    DependenciesExact(x, y);
    assert CellOk(g, x, y);
    forall e: Direction ensures e !in r[y][x].changed {
    }
  }

  lemma RefilterWellFormed(g: Grid, x: int, y: int)
    requires WellFormed(g) && InBounds(x, y)
    ensures WellFormed(Refiltered(g, x, y))
  {
    var r: Grid := Refiltered(g, x, y);
    forall i, j | InBounds(i, j) ensures CellOk(r, i, j) {
      RefilteredCellOk(g, x, y, i, j);
    }
  }

  lemma RefilteredCellOk(g: Grid, x: int, y: int, i: int, j: int)
    requires WellFormed(g) && InBounds(x, y) && InBounds(i, j)
    ensures CellOk(Refiltered(g, x, y), i, j)
  {
    var r: Grid := Refiltered(g, x, y);
    RefilteredCells(g, x, y);
    assert CellOk(g, i, j);
    if i == x && j == y {
      FilteredCellOk(g, r, x, y);
    } else {
      OtherCellOk(g, r, x, y, i, j);
    }
  }

  lemma FilteredCellOk(g: Grid, r: Grid, x: int, y: int)
    requires WellShaped(g) && WellShaped(r) && InBounds(x, y) && CellOk(g, x, y)
    requires SameButFlags(r[y][x], FilteredCell(g, x, y)) && r[y][x].changed == {}
    ensures CellOk(r, x, y)
  {
  }

  lemma OtherCellOk(g: Grid, r: Grid, x: int, y: int, i: int, j: int)
    requires WellShaped(g) && WellShaped(r) && InBounds(x, y) && InBounds(i, j) && CellOk(g, i, j)
    requires SameButFlags(g[j][i], r[j][i])
    requires forall e :: e in r[j][i].changed ==>
               e in g[j][i].changed || (i == x + Dx(Opposite(e)) && j == y + Dy(Opposite(e)))
    ensures CellOk(r, i, j)
  {
  }

  /** A possibility list that kept its length through filtering kept every element. */
  lemma FilterSameLength(g: Grid, x: int, y: int)
    requires WellFormed(g) && InBounds(x, y)
    ensures |FilteredCell(g, x, y).possibilities| <= |g[y][x].possibilities|
    ensures |FilteredCell(g, x, y).possibilities| == |g[y][x].possibilities| ==>
              FilteredCell(g, x, y) == g[y][x]
  {
    assert CellOk(g, x, y);
    SubsequenceBounds(FilteredCell(g, x, y).possibilities, g[y][x].possibilities);
  }

  /** What the refilter step does to the single cell (i, j). */
  lemma RefilteredAt(g: Grid, x: int, y: int, i: int, j: int)
    requires WellFormed(g) && InBounds(x, y) && InBounds(i, j)
    ensures var r := Refiltered(g, x, y);
      if i == x && j == y then SameButFlags(r[j][i], FilteredCell(g, x, y)) && r[j][i].changed == {}
      else
        && SameButFlags(g[j][i], r[j][i])
        && (|FilteredCell(g, x, y).possibilities| == |g[y][x].possibilities| ==>
              r[j][i].changed == g[j][i].changed)
        && forall e :: e !in r[j][i].changed ==> e !in g[j][i].changed
  {
    RefilteredCells(g, x, y);
  }

  /** Soundness of the refiltered cell itself: every remaining possibility fits every neighbour. */
  lemma RefilterFitsSideSelf(g: Grid, x: int, y: int, e: Direction, t: Tile)
    requires WellFormed(g) && InBounds(x, y)
    requires t in Refiltered(g, x, y)[y][x].possibilities
    ensures FitsSide(Refiltered(g, x, y), x, y, e, t)
  {
    var r: Grid := Refiltered(g, x, y);
    if HasNeighbour(x, y, e) {
      var ni, nj := x + Dx(e), y + Dy(e);
      RefilteredAt(g, x, y, x, y);
      RefilteredAt(g, x, y, ni, nj);
      assert t in FilteredCell(g, x, y).possibilities;
      FittingTilesMembers(g, x, y, g[y][x].possibilities, t);
      assert FitsSide(g, x, y, e, t);
      FitsSideTransfer(g, r, x, y, e, t);
    }
  }

  /** A cell other than (x, y) whose flag e stays clear still sees, in direction e,
      the side sets it saw before the refilter step. */
  lemma RefilterNeighbourSides(g: Grid, x: int, y: int, i: int, j: int, e: Direction)
    requires WellFormed(g) && InBounds(x, y) && InBounds(i, j) && !(i == x && j == y)
    requires HasNeighbour(i, j, e) && e !in Refiltered(g, x, y)[j][i].changed
    ensures Refiltered(g, x, y)[j + Dy(e)][i + Dx(e)].sides == g[j + Dy(e)][i + Dx(e)].sides
  {
    var ni, nj := i + Dx(e), j + Dy(e);
    RefilteredAt(g, x, y, ni, nj);
    if ni == x && nj == y {
      RefilterMarksReverse(g, x, y, i, j, e);
      FilterSameLength(g, x, y);
    }
  }

  /** Soundness of any other cell (i, j) after the refilter step, for flag e and possibility t. */
  lemma RefilterFitsSideOther(g: Grid, x: int, y: int, i: int, j: int, e: Direction, t: Tile)
    requires WellFormed(g) && InBounds(x, y) && InBounds(i, j) && !(i == x && j == y)
    requires !g[j][i].collapsed ==> CellSound(g, i, j)
    requires var r := Refiltered(g, x, y);
      !r[j][i].collapsed && e !in r[j][i].changed && t in r[j][i].possibilities
    ensures FitsSide(Refiltered(g, x, y), i, j, e, t)
  {
    if HasNeighbour(i, j, e) {
      RefilteredAt(g, x, y, i, j);
      assert e !in g[j][i].changed && t in g[j][i].possibilities && !g[j][i].collapsed;
      assert FitsSide(g, i, j, e, t);
      RefilterNeighbourSides(g, x, y, i, j, e);
      FitsSideTransfer(g, Refiltered(g, x, y), i, j, e, t);
    }
  }

  /** Whether t fits in direction e depends only on the side sets of that neighbour. */
  lemma FitsSideTransfer(g: Grid, r: Grid, i: int, j: int, e: Direction, t: Tile)
    requires WellShaped(g) && WellShaped(r) && InBounds(i, j) && HasNeighbour(i, j, e)
    requires r[j + Dy(e)][i + Dx(e)].sides == g[j + Dy(e)][i + Dx(e)].sides
    requires FitsSide(g, i, j, e, t)
    ensures FitsSide(r, i, j, e, t)
  {
  }

  /** When the refiltered cell lost possibilities, its neighbour in direction Opposite(e) gets flag e. */
  lemma RefilterMarksReverse(g: Grid, x: int, y: int, i: int, j: int, e: Direction)
    requires WellFormed(g) && InBounds(x, y) && InBounds(i, j)
    requires i + Dx(e) == x && j + Dy(e) == y
    ensures |FilteredCell(g, x, y).possibilities| != |g[y][x].possibilities| ==>
              e in Refiltered(g, x, y)[j][i].changed
  {
    RefilteredCells(g, x, y);
  }

  lemma RefilterFlagsSound(g: Grid, x: int, y: int)
    requires WellFormed(g) && FlagsSound(g) && InBounds(x, y)
    ensures FlagsSound(Refiltered(g, x, y))
  {
    var r: Grid := Refiltered(g, x, y);
    forall i, j | InBounds(i, j) && !r[j][i].collapsed ensures CellSound(r, i, j) {
      forall e, t | e !in r[j][i].changed && t in r[j][i].possibilities
        ensures FitsSide(r, i, j, e, t)
      {
        if i == x && j == y {
          RefilterFitsSideSelf(g, x, y, e, t);
        } else {
          RefilterFitsSideOther(g, x, y, i, j, e, t);
        }
      }
    }
  }

  lemma RefilterNarrows(g: Grid, x: int, y: int)
    requires WellFormed(g) && InBounds(x, y)
    ensures var r := Refiltered(g, x, y);
      && Narrowed(g, r) && KeepsCollapsed(g, r, x, y)
      && r[y][x].possibilities == FittingTiles(g, x, y, g[y][x].possibilities)
  {
    var r: Grid := Refiltered(g, x, y);
    RefilteredCells(g, x, y);
    forall i, j | InBounds(i, j) ensures CellNarrowed(g, r, i, j) {
      if !(i == x && j == y) {
        SubsequenceReflexive(g[j][i].possibilities);
      }
    }
  }

  lemma RefilterPending(g: Grid, x: int, y: int)
    requires WellFormed(g) && InBounds(x, y)
    ensures var r := Refiltered(g, x, y);
      forall i, j {:trigger Pending(r, i, j)} :: InBounds(i, j) && Pending(r, i, j) ==>
        (Pending(g, i, j) && !Near(x, y, i, j)) || (Near(x, y, i, j) && !(i == x && j == y))
  {
    RefilteredCells(g, x, y);
  }

  lemma RefilterProgress(g: Grid, x: int, y: int)
    requires WellFormed(g) && InBounds(x, y)
    ensures Progress(g, Refiltered(g, x, y), x, y)
  {
    var r: Grid := Refiltered(g, x, y);
    RefilteredCells(g, x, y);
    FilterSameLength(g, x, y);
    GridSumExcept(g, r, x, y, PossibilityCount);
    if |FilteredCell(g, x, y).possibilities| == |g[y][x].possibilities| {
      forall i, j | InBounds(i, j) && !(i == x && j == y) ensures r[j][i].changed == g[j][i].changed {
      }
      GridSumExcept(g, r, x, y, FlagCount);
    }
  }

  /** The refilter step keeps the grid well formed and the flags sound, only narrows,
      leaves collapsed cells other than (x, y) alone, leaves (x, y) without flags,
      only makes neighbours of (x, y) pending, and does not increase the measure. */
  lemma RefilterKeepsInvariants(g: Grid, x: int, y: int)
    requires WellFormed(g) && FlagsSound(g) && InBounds(x, y)
    ensures var r := Refiltered(g, x, y);
      && WellFormed(r) && FlagsSound(r)
      && Narrowed(g, r) && KeepsCollapsed(g, r, x, y)
      && r[y][x].possibilities == FittingTiles(g, x, y, g[y][x].possibilities)
      && (forall i, j {:trigger Pending(r, i, j)} :: InBounds(i, j) && Pending(r, i, j) ==>
            (Pending(g, i, j) && !Near(x, y, i, j)) || (Near(x, y, i, j) && !(i == x && j == y)))
      && Progress(g, r, x, y)
  {
    RefilterWellFormed(g, x, y);
    RefilterFlagsSound(g, x, y);
    RefilterNarrows(g, x, y);
    RefilterPending(g, x, y);
    RefilterProgress(g, x, y);
  }

  /** Lexicographic "not larger" on (total possibilities, total flags). */
  ghost predicate NoLarger(g1: Grid, g0: Grid) {
    TotalPossibilities(g1) < TotalPossibilities(g0) ||
    (TotalPossibilities(g1) == TotalPossibilities(g0) && TotalFlags(g1) <= TotalFlags(g0))
  }

  /** What a visit of propagation to an uncollapsed neighbour (nx, ny) of (x, y) promises,
      carried over to the loop invariant of the visit to (x, y). */
  lemma {:induction false} NeighbourVisitKeeps(g0: Grid, g1: Grid, g2: Grid, x: int, y: int, nx: int, ny: int)
    requires WellShaped(g0) && WellShaped(g1) && WellShaped(g2)
    requires InBounds(x, y) && InBounds(nx, ny) && !(nx == x && ny == y) && !g1[ny][nx].collapsed
    requires Narrowed(g0, g1) && Narrowed(g1, g2)
    requires KeepsCollapsed(g0, g1, x, y) && KeepsCollapsed(g1, g2, nx, ny)
    requires PendingShrinks(g1, g2, nx, ny)
    requires Progress(g0, g1, x, y) && Progress(g1, g2, nx, ny)
    ensures Narrowed(g0, g2)
    ensures KeepsCollapsed(g0, g2, x, y)
    ensures Progress(g0, g2, x, y)
    ensures g0[y][x].collapsed ==> g2[y][x].possibilities == g1[y][x].possibilities
    ensures !Pending(g2, nx, ny)
    ensures forall i, j {:trigger Pending(g2, i, j)} :: InBounds(i, j) && Pending(g2, i, j) ==> Pending(g1, i, j)
  {
    NarrowedTransitive(g0, g1, g2);
    forall i, j | InBounds(i, j) ensures KeptIfCollapsed(g0, g2, x, y, i, j) {
      assert CellNarrowed(g0, g1, i, j);
      assert KeptIfCollapsed(g0, g1, x, y, i, j) && KeptIfCollapsed(g1, g2, nx, ny, i, j);
    }
    assert CellNarrowed(g0, g1, x, y);
    assert KeptIfCollapsed(g1, g2, nx, ny, x, y);
    assert Near(nx, ny, nx, ny);
  }

  // ----- the collapse step -----

  /** (x, y) reduced to the single tile, with the singleton side sets, marked collapsed. */
  function CollapsedCell(c: MapTile, tile: Tile): MapTile {
    c.(possibilities := [tile], collapsed := true,
       sides := SideSets({tile.top}, {tile.right}, {tile.bottom}, {tile.left}))
  }

  lemma SingletonSides(tile: Tile)
    ensures SidesOf([tile]) == SideSets({tile.top}, {tile.right}, {tile.bottom}, {tile.left})
  {
    var s := SidesOf([tile]);
    assert s.top == {tile.top} && s.right == {tile.right} && s.bottom == {tile.bottom} && s.left == {tile.left} by {
      assert forall v :: v in s.top ==> v == tile.top by {
        forall v | v in s.top ensures v == tile.top {
          assert SideOf(tile, Up) == tile.top;
        }
      }
    }
  }

  /** The grid after collapse set (x, y) to the tile and flagged every neighbour's reverse record. */
  function CollapsedAt(g: Grid, x: int, y: int, tile: Tile): (r: Grid)
    requires WellShaped(g) && InBounds(x, y)
    ensures WellShaped(r)
  {
    DependenciesExact(x, y);
    NotifyAll(SetCell(g, x, y, CollapsedCell(g[y][x], tile)), x, y, Dependencies(x, y), false, true)
  }

  /** What the collapse step does to the single cell (i, j). */
  lemma CollapsedAtCell(g: Grid, x: int, y: int, tile: Tile, i: int, j: int)
    requires WellShaped(g) && InBounds(x, y) && InBounds(i, j)
    ensures var r := CollapsedAt(g, x, y, tile);
      if i == x && j == y then
        SameButFlags(r[j][i], CollapsedCell(g[y][x], tile)) && r[j][i].changed == g[j][i].changed
      else
        && SameButFlags(g[j][i], r[j][i])
        && forall e :: e in r[j][i].changed <==>
             e in g[j][i].changed || (i == x + Dx(Opposite(e)) && j == y + Dy(Opposite(e)))
  {
    DependenciesExact(x, y);
  }

  /** The invariant the engine keeps between calls of collapse. */
  ghost predicate Settled(g: Grid) {
    WellFormed(g) && FlagsSound(g) && Quiescent(g) && CollapsedAgree(g) && CollapsedAtMostOne(g)
  }

  /** A tile chosen from (x, y) agrees with every tile of a collapsed neighbour in direction d. */
  lemma ChosenTileAgrees(g: Grid, x: int, y: int, tile: Tile, d: Direction, u: Tile)
    requires Settled(g) && InBounds(x, y) && HasNeighbour(x, y, d)
    requires tile in g[y][x].possibilities
    requires g[y + Dy(d)][x + Dx(d)].collapsed && u in g[y + Dy(d)][x + Dx(d)].possibilities
    ensures SideOf(tile, d) == SideOf(u, Opposite(d))
  {
    var nx, ny := x + Dx(d), y + Dy(d);
    if g[y][x].collapsed {
      assert EdgeAgrees(g, x, y, d);
    } else {
      assert !Pending(g, x, y);
      assert CellSound(g, x, y);
      assert CellOk(g, nx, ny);
      assert AtMostOneAt(g, nx, ny);
      FittingTileAgrees(g, x, y, tile, d, u);
    }
  }

  /** A tile that fits the side set of a neighbour holding at most one tile agrees with that tile. */
  lemma FittingTileAgrees(g: Grid, x: int, y: int, tile: Tile, d: Direction, u: Tile)
    requires WellShaped(g) && InBounds(x, y) && HasNeighbour(x, y, d)
    requires CellSound(g, x, y) && g[y][x].changed == {} && tile in g[y][x].possibilities
    requires CellOk(g, x + Dx(d), y + Dy(d)) && AtMostOneAt(g, x + Dx(d), y + Dy(d))
    requires g[y + Dy(d)][x + Dx(d)].collapsed && u in g[y + Dy(d)][x + Dx(d)].possibilities
    ensures SideOf(tile, d) == SideOf(u, Opposite(d))
  {
    var n := g[y + Dy(d)][x + Dx(d)];
    assert FitsSide(g, x, y, d, tile);
    var w :| w in n.possibilities && SideOf(w, Opposite(d)) == SideOf(tile, d);
    assert w == n.possibilities[0] == u;
  }

  lemma CollapsedAtWellFormed(g: Grid, x: int, y: int, tile: Tile)
    requires WellFormed(g) && InBounds(x, y)
    ensures WellFormed(CollapsedAt(g, x, y, tile))
  {
    var r: Grid := CollapsedAt(g, x, y, tile);
    SingletonSides(tile);
    forall i, j | InBounds(i, j) ensures CellOk(r, i, j) {
      CollapsedAtCell(g, x, y, tile, i, j);
      assert CellOk(g, i, j);
    }
  }

  lemma CollapsedAtFlagsSound(g: Grid, x: int, y: int, tile: Tile)
    requires WellFormed(g) && FlagsSound(g) && InBounds(x, y)
    ensures FlagsSound(CollapsedAt(g, x, y, tile))
  {
    var r: Grid := CollapsedAt(g, x, y, tile);
    forall i, j | InBounds(i, j) && !r[j][i].collapsed ensures CellSound(r, i, j) {
      CollapsedAtCell(g, x, y, tile, i, j);
      forall e, t | e !in r[j][i].changed && t in r[j][i].possibilities
        ensures FitsSide(r, i, j, e, t)
      {
        if HasNeighbour(i, j, e) {
          var ni, nj := i + Dx(e), j + Dy(e);
          CollapsedAtCell(g, x, y, tile, ni, nj);
          assert CellSound(g, i, j);
          assert FitsSide(g, i, j, e, t);
          FitsSideTransfer(g, r, i, j, e, t);
        }
      }
    }
  }

  lemma CollapsedAtAgrees(g: Grid, x: int, y: int, tile: Tile)
    requires Settled(g) && InBounds(x, y) && tile in g[y][x].possibilities
    ensures CollapsedAgree(CollapsedAt(g, x, y, tile))
    ensures CollapsedAtMostOne(CollapsedAt(g, x, y, tile))
  {
    var r: Grid := CollapsedAt(g, x, y, tile);
    forall i, j | InBounds(i, j) ensures AtMostOneAt(r, i, j) {
      CollapsedAtCell(g, x, y, tile, i, j);
      assert AtMostOneAt(g, i, j);
    }
    forall i, j, d ensures EdgeAgrees(r, i, j, d) {
      CollapsedEdgeAgrees(g, x, y, tile, i, j, d);
    }
  }

  lemma CollapsedEdgeAgrees(g: Grid, x: int, y: int, tile: Tile, i: int, j: int, d: Direction)
    requires Settled(g) && InBounds(x, y) && tile in g[y][x].possibilities
    ensures EdgeAgrees(CollapsedAt(g, x, y, tile), i, j, d)
  {
    var r: Grid := CollapsedAt(g, x, y, tile);
    if InBounds(i, j) && HasNeighbour(i, j, d) && r[j][i].collapsed && r[j + Dy(d)][i + Dx(d)].collapsed {
      if i == x && j == y {
        CollapsedEdgeFromChosen(g, x, y, tile, d);
      } else if i + Dx(d) == x && j + Dy(d) == y {
        CollapsedEdgeIntoChosen(g, x, y, tile, i, j, d);
      } else {
        CollapsedEdgeElsewhere(g, x, y, tile, i, j, d);
      }
    }
  }

  /** The edge from the freshly collapsed cell to a collapsed neighbour. */
  lemma CollapsedEdgeFromChosen(g: Grid, x: int, y: int, tile: Tile, d: Direction)
    requires Settled(g) && InBounds(x, y) && tile in g[y][x].possibilities && HasNeighbour(x, y, d)
    requires CollapsedAt(g, x, y, tile)[y + Dy(d)][x + Dx(d)].collapsed
    ensures PairAgrees(CollapsedAt(g, x, y, tile), x, y, d)
  {
    var r: Grid := CollapsedAt(g, x, y, tile);
    var ni, nj := x + Dx(d), y + Dy(d);
    CollapsedAtCell(g, x, y, tile, x, y);
    CollapsedAtCell(g, x, y, tile, ni, nj);
    forall u | u in g[nj][ni].possibilities
      ensures SideOf(tile, d) == SideOf(u, Opposite(d))
    {
      ChosenTileAgrees(g, x, y, tile, d, u);
    }
    PairFromSingleton(r, x, y, d, tile, g[nj][ni].possibilities);
  }

  /** An edge whose near cell holds only `tile` agrees when `tile` matches every far possibility. */
  lemma PairFromSingleton(r: Grid, x: int, y: int, d: Direction, tile: Tile, far: seq<Tile>)
    requires WellShaped(r) && InBounds(x, y) && HasNeighbour(x, y, d)
    requires r[y][x].possibilities == [tile] && r[y + Dy(d)][x + Dx(d)].possibilities == far
    requires forall u :: u in far ==> SideOf(tile, d) == SideOf(u, Opposite(d))
    ensures PairAgrees(r, x, y, d)
  {
  }

  /** An edge whose far cell holds only `tile` agrees when every near possibility matches `tile`. */
  lemma PairToSingleton(r: Grid, i: int, j: int, d: Direction, tile: Tile, near: seq<Tile>)
    requires WellShaped(r) && InBounds(i, j) && HasNeighbour(i, j, d)
    requires r[j][i].possibilities == near && r[j + Dy(d)][i + Dx(d)].possibilities == [tile]
    requires forall t :: t in near ==> SideOf(t, d) == SideOf(tile, Opposite(d))
    ensures PairAgrees(r, i, j, d)
  {
  }

  /** The edge from a collapsed neighbour into the freshly collapsed cell. */
  lemma CollapsedEdgeIntoChosen(g: Grid, x: int, y: int, tile: Tile, i: int, j: int, d: Direction)
    requires Settled(g) && InBounds(x, y) && tile in g[y][x].possibilities
    requires InBounds(i, j) && HasNeighbour(i, j, d) && i + Dx(d) == x && j + Dy(d) == y
    requires CollapsedAt(g, x, y, tile)[j][i].collapsed
    ensures PairAgrees(CollapsedAt(g, x, y, tile), i, j, d)
  {
    var r: Grid := CollapsedAt(g, x, y, tile);
    CollapsedAtCell(g, x, y, tile, i, j);
    CollapsedAtCell(g, x, y, tile, x, y);
    assert HasNeighbour(x, y, Opposite(d)) && x + Dx(Opposite(d)) == i && y + Dy(Opposite(d)) == j;
    forall t | t in g[j][i].possibilities
      ensures SideOf(t, d) == SideOf(tile, Opposite(d))
    {
      ChosenTileAgrees(g, x, y, tile, Opposite(d), t);
    }
    PairToSingleton(r, i, j, d, tile, g[j][i].possibilities);
  }

  /** An edge away from the freshly collapsed cell keeps its agreement. */
  lemma CollapsedEdgeElsewhere(g: Grid, x: int, y: int, tile: Tile, i: int, j: int, d: Direction)
    requires WellShaped(g) && CollapsedAgree(g) && InBounds(x, y)
    requires InBounds(i, j) && HasNeighbour(i, j, d) && !(i == x && j == y)
    requires !(i + Dx(d) == x && j + Dy(d) == y)
    requires CollapsedAt(g, x, y, tile)[j][i].collapsed
    requires CollapsedAt(g, x, y, tile)[j + Dy(d)][i + Dx(d)].collapsed
    ensures PairAgrees(CollapsedAt(g, x, y, tile), i, j, d)
  {
    var r: Grid := CollapsedAt(g, x, y, tile);
    CollapsedAtCell(g, x, y, tile, i, j);
    CollapsedAtCell(g, x, y, tile, i + Dx(d), j + Dy(d));
    PairAgreesTransfer(g, r, i, j, d);
  }

  /** Agreement along an edge survives a change that leaves the two cells' possibilities and
      collapsed marks as they were. */
  lemma PairAgreesTransfer(g: Grid, r: Grid, i: int, j: int, d: Direction)
    requires WellShaped(g) && WellShaped(r) && CollapsedAgree(g) && InBounds(i, j) && HasNeighbour(i, j, d)
    requires SameButFlags(g[j][i], r[j][i]) && SameButFlags(g[j + Dy(d)][i + Dx(d)], r[j + Dy(d)][i + Dx(d)])
    requires r[j][i].collapsed && r[j + Dy(d)][i + Dx(d)].collapsed
    ensures PairAgrees(r, i, j, d)
  {
    assert EdgeAgrees(g, i, j, d);
  }

  /** The collapse step sets up everything propagation from (x, y) needs to restore the invariant. */
  lemma CollapsedAtFacts(g: Grid, x: int, y: int, tile: Tile)
    requires Settled(g) && InBounds(x, y) && tile in g[y][x].possibilities
    ensures var r := CollapsedAt(g, x, y, tile);
      && WellFormed(r) && FlagsSound(r) && CollapsedAgree(r) && CollapsedAtMostOne(r)
      && r[y][x].collapsed && r[y][x].possibilities == [tile]
      && (forall i, j {:trigger Pending(r, i, j)} :: InBounds(i, j) && Pending(r, i, j) ==>
            Near(x, y, i, j) && !(i == x && j == y))
      && (forall i, j :: InBounds(i, j) && !(i == x && j == y) ==> SameButFlags(g[j][i], r[j][i]))
      && (!g[y][x].collapsed ==> FittingTiles(r, x, y, [tile]) == [tile])
  {
    CollapsedAtWellFormed(g, x, y, tile);
    CollapsedAtFlagsSound(g, x, y, tile);
    CollapsedAtAgrees(g, x, y, tile);
    CollapsedAtCell(g, x, y, tile, x, y);
    CollapsedAtOthers(g, x, y, tile);
    if !g[y][x].collapsed {
      CollapsedAtKeepsTile(g, x, y, tile);
    }
  }

  lemma CollapsedAtOthers(g: Grid, x: int, y: int, tile: Tile)
    requires Settled(g) && InBounds(x, y) && tile in g[y][x].possibilities
    ensures var r := CollapsedAt(g, x, y, tile);
      && (forall i, j {:trigger Pending(r, i, j)} :: InBounds(i, j) && Pending(r, i, j) ==>
            Near(x, y, i, j) && !(i == x && j == y))
      && (forall i, j :: InBounds(i, j) && !(i == x && j == y) ==> SameButFlags(g[j][i], r[j][i]))
  {
    var r: Grid := CollapsedAt(g, x, y, tile);
    forall i, j | InBounds(i, j) && !(i == x && j == y) ensures SameButFlags(g[j][i], r[j][i]) {
      CollapsedAtCell(g, x, y, tile, i, j);
    }
    forall i, j | InBounds(i, j) && Pending(r, i, j) ensures Near(x, y, i, j) && !(i == x && j == y) {
      CollapsedAtCell(g, x, y, tile, i, j);
      assert !Pending(g, i, j);
    }
  }

  /** Collapsing an uncollapsed cell of a settled map: the chosen tile fits every neighbour. */
  lemma CollapsedAtKeepsTile(g: Grid, x: int, y: int, tile: Tile)
    requires Settled(g) && InBounds(x, y) && tile in g[y][x].possibilities && !g[y][x].collapsed
    ensures WellShaped(CollapsedAt(g, x, y, tile))
    ensures FittingTiles(CollapsedAt(g, x, y, tile), x, y, [tile]) == [tile]
  {
    var r: Grid := CollapsedAt(g, x, y, tile);
    CollapsedAtWellFormed(g, x, y, tile);
    forall d ensures FitsSide(r, x, y, d, tile) {
      if HasNeighbour(x, y, d) {
        CollapsedAtCell(g, x, y, tile, x + Dx(d), y + Dy(d));
        assert !Pending(g, x, y);
        assert CellSound(g, x, y);
        assert FitsSide(g, x, y, d, tile);
      }
    }
    FittingSingleton(r, x, y, tile);
  }

  /** A single compatible tile survives filtering. */
  lemma FittingSingleton(g: Grid, x: int, y: int, tile: Tile)
    requires WellShaped(g) && InBounds(x, y) && Compatible(g, x, y, tile)
    ensures FittingTiles(g, x, y, [tile]) == [tile]
  {
    var r := FittingTiles(g, x, y, [tile]);
    FittingTilesMembers(g, x, y, [tile], tile);
    SubsequenceBounds(r, [tile]);
  }

  // ----- the whole map -----

  /** Every uncollapsed cell of a settled map is arc consistent: each of its possibilities
      shows every neighbour a side that the neighbour can still show back. */
  lemma SettledIsArcConsistent(g: Grid, x: int, y: int, t: Tile)
    requires Settled(g) && InBounds(x, y) && !g[y][x].collapsed && t in g[y][x].possibilities
    ensures Compatible(g, x, y, t)
    ensures forall d :: HasNeighbour(x, y, d) ==>
              exists u :: u in g[y + Dy(d)][x + Dx(d)].possibilities && SideOf(u, Opposite(d)) == SideOf(t, d)
  {
    assert !Pending(g, x, y);
    assert CellSound(g, x, y);
    forall d | HasNeighbour(x, y, d)
      ensures exists u :: u in g[y + Dy(d)][x + Dx(d)].possibilities && SideOf(u, Opposite(d)) == SideOf(t, d)
    {
      assert FitsSide(g, x, y, d, t);
      assert CellOk(g, x + Dx(d), y + Dy(d));
    }
  }

  ghost predicate AllCollapsed(g: Grid)
    requires WellShaped(g)
  {
    forall x, y :: InBounds(x, y) ==> g[y][x].collapsed
  }

  /** Some uncollapsed cell has no possibility left: the map can no longer be completed. */
  ghost predicate Stuck(g: Grid)
    requires WellShaped(g)
  {
    exists x, y :: InBounds(x, y) && !g[y][x].collapsed && |g[y][x].possibilities| == 0
  }

  /** On a fully collapsed settled map every two adjacent tiles show each other the same side. */
  lemma FullyCollapsedFits(g: Grid, x: int, y: int, d: Direction)
    requires Settled(g) && AllCollapsed(g) && InBounds(x, y) && HasNeighbour(x, y, d)
    requires |g[y][x].possibilities| > 0 && |g[y + Dy(d)][x + Dx(d)].possibilities| > 0
    ensures |g[y][x].possibilities| == 1 && |g[y + Dy(d)][x + Dx(d)].possibilities| == 1
    ensures SideOf(g[y][x].possibilities[0], d) == SideOf(g[y + Dy(d)][x + Dx(d)].possibilities[0], Opposite(d))
  {
    assert EdgeAgrees(g, x, y, d);
    assert AtMostOneAt(g, x, y) && AtMostOneAt(g, x + Dx(d), y + Dy(d));
  }

  function OpenCount(c: MapTile): nat {
    if c.collapsed then 0 else 1
  }

  /** Number of cells still to collapse. */
  function UncollapsedCount(g: Grid): nat {
    GridSum(g, OpenCount)
  }

  /** Collapsing one open cell, and nothing else, lowers the count by one. */
  lemma UncollapsedCountDrops(g0: Grid, g1: Grid, x: int, y: int)
    requires WellShaped(g0) && WellShaped(g1) && InBounds(x, y)
    requires !g0[y][x].collapsed && g1[y][x].collapsed
    requires forall i, j :: InBounds(i, j) && !(i == x && j == y) ==> g1[j][i].collapsed == g0[j][i].collapsed
    ensures UncollapsedCount(g1) + 1 == UncollapsedCount(g0)
  {
    GridSumExcept(g0, g1, x, y, OpenCount);
  }

  // ----- the initial map -----

  /** A fresh cell: every tile of the palette possible, nothing collapsed, no flag set. */
  function BlankCell(palette: seq<Tile>): MapTile {
    MapTile(0, 0, palette, false, {}, SidesOf(palette))
  }

  /** Every cell holds the whole palette and its own coordinates. */
  ghost predicate Fresh(g: Grid, palette: seq<Tile>)
    requires WellShaped(g)
  {
    forall x, y :: InBounds(x, y) ==> g[y][x] == BlankCell(palette).(x := x, y := y)
  }

  /** A fresh map over a rotation-closed palette already satisfies the engine's invariant. */
  lemma FreshIsSettled(g: Grid, palette: seq<Tile>)
    requires WellShaped(g) && Fresh(g, palette) && RotationClosed(palette)
    ensures Settled(g)
  {
    forall x, y | InBounds(x, y) ensures CellOk(g, x, y) && CellSound(g, x, y) {
      forall d, t | t in g[y][x].possibilities ensures FitsSide(g, x, y, d, t) {
        if HasNeighbour(x, y, d) {
          RotationClosedFacesAgree(palette, t, d, Opposite(d));
        }
      }
    }
  }

  // ----- end of a collapse -----

  /** After the collapse step and the propagation from (x, y), the invariant holds again,
      (x, y) is collapsed to the tile (or, if it had been collapsed before, to at most that tile),
      and every other cell only lost possibilities. */
  lemma CollapseFinish(g0: Grid, r: Grid, f: Grid, x: int, y: int, tile: Tile)
    requires Settled(g0) && InBounds(x, y) && tile in g0[y][x].possibilities
    requires r == CollapsedAt(g0, x, y, tile)
    requires WellFormed(f) && FlagsSound(f) && Narrowed(r, f)
    requires KeepsCollapsed(r, f, x, y) && PendingShrinks(r, f, x, y)
    requires f[y][x].possibilities == FittingTiles(r, x, y, r[y][x].possibilities)
    ensures Settled(f)
    ensures f[y][x].collapsed
    ensures IsSubsequence(f[y][x].possibilities, [tile])
    ensures !g0[y][x].collapsed ==> f[y][x].possibilities == [tile]
    ensures forall i, j :: InBounds(i, j) && !(i == x && j == y) ==> CellNarrowed(g0, f, i, j)
    ensures KeepsCollapsed(g0, f, x, y)
  {
    CollapsedAtFacts(g0, x, y, tile);
    NarrowingKeepsAgreement(r, f);
    forall i, j | InBounds(i, j) ensures !Pending(f, i, j) {
      assert Pending(r, i, j) ==> Near(x, y, i, j);
    }
    assert CellNarrowed(r, f, x, y);
    forall i, j | InBounds(i, j) && !(i == x && j == y) ensures CellNarrowed(g0, f, i, j) {
      assert CellNarrowed(r, f, i, j);
    }
    forall i, j | InBounds(i, j) ensures KeptIfCollapsed(g0, f, x, y, i, j) {
      assert KeptIfCollapsed(r, f, x, y, i, j);
    }
  }

  // ----- choosing the next cell -----

  /** Row-major position, the order of the flattened map. */
  function Position(x: int, y: int): int {
    y * MapWidth + x
  }

  /** (cx, cy) is the first uncollapsed cell, in row-major order, among those with the fewest
      possibilities: the head of the uncollapsed cells stably sorted by possibility count. */
  ghost predicate FirstLeastOpen(g: Grid, cx: int, cy: int)
    requires WellShaped(g)
  {
    && InBounds(cx, cy) && !g[cy][cx].collapsed
    && forall i, j :: InBounds(i, j) && !g[j][i].collapsed ==>
         |g[cy][cx].possibilities| <= |g[j][i].possibilities| &&
         (Position(i, j) < Position(cx, cy) ==> |g[cy][cx].possibilities| < |g[j][i].possibilities|)
  }

  /** The choice is determined by the map. */
  lemma FirstLeastOpenUnique(g: Grid, ax: int, ay: int, cx: int, cy: int)
    requires WellShaped(g) && FirstLeastOpen(g, ax, ay) && FirstLeastOpen(g, cx, cy)
    ensures ax == cx && ay == cy
  {
    assert |g[cy][cx].possibilities| == |g[ay][ax].possibilities|;
    assert Position(ax, ay) == Position(cx, cy);
  }

  /** The chosen cell is empty exactly when the map is stuck. */
  lemma FirstLeastOpenStuck(g: Grid, cx: int, cy: int)
    requires WellShaped(g) && FirstLeastOpen(g, cx, cy)
    ensures Stuck(g) <==> |g[cy][cx].possibilities| == 0
  {
    if Stuck(g) {
      var i, j :| InBounds(i, j) && !g[j][i].collapsed && |g[j][i].possibilities| == 0;
    }
  }

  /** The neighbours of (x, y) through its first k dependencies are not pending. */
  ghost predicate VisitedUpTo(g: Grid, x: int, y: int, deps: seq<Direction>, k: int)
    requires WellShaped(g) && InBounds(x, y) && k <= |deps|
    requires forall m :: 0 <= m < |deps| ==> InBounds(x + Dx(deps[m]), y + Dy(deps[m]))
  {
    forall m :: 0 <= m < k ==> !Pending(g, x + Dx(deps[m]), y + Dy(deps[m]))
  }

  /** A visit that makes no cell pending keeps visited neighbours settled and adds the k-th. */
  lemma VisitedExtends(g1: Grid, g2: Grid, x: int, y: int, deps: seq<Direction>, k: int)
    requires WellShaped(g1) && WellShaped(g2) && InBounds(x, y) && 0 <= k < |deps|
    requires forall m :: 0 <= m < |deps| ==> InBounds(x + Dx(deps[m]), y + Dy(deps[m]))
    requires VisitedUpTo(g1, x, y, deps, k)
    requires forall i, j {:trigger Pending(g2, i, j)} :: InBounds(i, j) && Pending(g2, i, j) ==> Pending(g1, i, j)
    requires !Pending(g2, x + Dx(deps[k]), y + Dy(deps[k]))
    ensures VisitedUpTo(g2, x, y, deps, k + 1)
  {
    forall m | 0 <= m < k + 1 ensures !Pending(g2, x + Dx(deps[m]), y + Dy(deps[m])) {
      if m < k {
        assert !Pending(g1, x + Dx(deps[m]), y + Dy(deps[m]));
      }
    }
  }

  /** Every pending cell was pending before the visit to (x, y) and lies away from it,
      or is a neighbour of (x, y). */
  ghost predicate PendingNear(g0: Grid, g: Grid, x: int, y: int)
    requires WellShaped(g0) && WellShaped(g)
  {
    forall i, j {:trigger Pending(g, i, j)} :: InBounds(i, j) && Pending(g, i, j) ==>
      (Pending(g0, i, j) && !Near(x, y, i, j)) || (Near(x, y, i, j) && !(i == x && j == y))
  }

  /** The state of a propagation visit to (x, y) after its first k dependencies were handled. */
  ghost predicate VisitInvariant(g0: Grid, g: Grid, x: int, y: int, k: int)
    requires WellShaped(g0) && InBounds(x, y) && 0 <= k <= |Dependencies(x, y)|
  {
    DependenciesExact(x, y);
    && WellFormed(g) && FlagsSound(g)
    && Narrowed(g0, g) && KeepsCollapsed(g0, g, x, y) && Progress(g0, g, x, y)
    && (g0[y][x].collapsed ==> g[y][x].possibilities == FittingTiles(g0, x, y, g0[y][x].possibilities))
    && PendingNear(g0, g, x, y)
    && VisitedUpTo(g, x, y, Dependencies(x, y), k)
  }

  lemma VisitStart(g0: Grid, x: int, y: int)
    requires WellFormed(g0) && FlagsSound(g0) && InBounds(x, y)
    ensures VisitInvariant(g0, Refiltered(g0, x, y), x, y, 0)
  {
    RefilterKeepsInvariants(g0, x, y);
  }

  /** A neighbour that is collapsed or has no flag is skipped. */
  lemma VisitSkip(g0: Grid, g: Grid, x: int, y: int, k: int)
    requires WellShaped(g0) && InBounds(x, y) && 0 <= k < |Dependencies(x, y)|
    requires VisitInvariant(g0, g, x, y, k)
    requires !Pending(g, x + Dx(Dependencies(x, y)[k]), y + Dy(Dependencies(x, y)[k]))
    ensures VisitInvariant(g0, g, x, y, k + 1)
  {
    DependenciesExact(x, y);
    VisitedExtends(g, g, x, y, Dependencies(x, y), k);
  }

  /** A neighbour that was pending is visited recursively. */
  lemma VisitStep(g0: Grid, g1: Grid, g2: Grid, x: int, y: int, k: int)
    requires WellShaped(g0) && InBounds(x, y) && 0 <= k < |Dependencies(x, y)|
    requires VisitInvariant(g0, g1, x, y, k)
    requires var d := Dependencies(x, y)[k];
      HasNeighbour(x, y, d) && !g1[y + Dy(d)][x + Dx(d)].collapsed
    requires var d := Dependencies(x, y)[k]; var nx, ny := x + Dx(d), y + Dy(d);
      && WellFormed(g2) && FlagsSound(g2)
      && Narrowed(g1, g2) && KeepsCollapsed(g1, g2, nx, ny)
      && PendingShrinks(g1, g2, nx, ny) && Progress(g1, g2, nx, ny)
    ensures VisitInvariant(g0, g2, x, y, k + 1)
  {
    DependenciesExact(x, y);
    var d := Dependencies(x, y)[k];
    var nx, ny := x + Dx(d), y + Dy(d);
    NeighbourVisitKeeps(g0, g1, g2, x, y, nx, ny);
    VisitedExtends(g1, g2, x, y, Dependencies(x, y), k);
    forall i, j | InBounds(i, j) && Pending(g2, i, j)
      ensures (Pending(g0, i, j) && !Near(x, y, i, j)) || (Near(x, y, i, j) && !(i == x && j == y))
    {
      assert Pending(g1, i, j);
    }
  }

  /** Once every dependency was handled, no neighbour of (x, y) is pending. */
  lemma VisitEnd(g0: Grid, g: Grid, x: int, y: int)
    requires WellShaped(g0) && InBounds(x, y)
    requires VisitInvariant(g0, g, x, y, |Dependencies(x, y)|)
    ensures PendingShrinks(g0, g, x, y)
  {
    var deps := Dependencies(x, y);
    forall i, j | InBounds(i, j) && Near(x, y, i, j) && !(i == x && j == y) ensures !Pending(g, i, j) {
      var m := NearDependency(x, y, i, j);
      assert !Pending(g, x + Dx(deps[m]), y + Dy(deps[m]));
    }
  }
}
