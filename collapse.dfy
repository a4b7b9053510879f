/** The tile map of the collapse draft: the palette with its rotations, the map of cells,
    propagation of possibility changes, collapsing a cell, and the loop that collapses the
    whole map one least-uncertain cell at a time. */
module Collapse {
  import opened Common
  import opened CollapseGrid

  /** The palette layout: the base tiles, then for each base tile in order its three rotations. */
  ghost predicate IsExpansion(base: seq<Tile>, tiles: seq<Tile>) {
    && |tiles| == 4 * |base| && tiles[..|base|] == base
    && forall i :: 0 <= i < |base| ==>
         && tiles[|base| + 3 * i] == Rotate(base[i])
         && tiles[|base| + 3 * i + 1] == Rotate(Rotate(base[i]))
         && tiles[|base| + 3 * i + 2] == Rotate(Rotate(Rotate(base[i])))
  }

  /** Appends, for every base tile, the tile turned a quarter, a half and three quarters. */
  method ExpandRotations(base: seq<Tile>) returns (tiles: seq<Tile>)
    ensures IsExpansion(base, tiles)
  {
    tiles := base;
    var n := |base|;
    for i := 0 to n
      invariant |tiles| == n + 3 * i && tiles[..n] == base
      invariant forall k :: 0 <= k < i ==>
                  && tiles[n + 3 * k] == Rotate(base[k])
                  && tiles[n + 3 * k + 1] == Rotate(Rotate(base[k]))
                  && tiles[n + 3 * k + 2] == Rotate(Rotate(Rotate(base[k])))
    {
      var t := tiles[i];
      tiles := tiles + [Tile(t.left, t.top, t.right, t.bottom)];
      tiles := tiles + [Tile(t.bottom, t.left, t.top, t.right)];
      tiles := tiles + [Tile(t.right, t.bottom, t.left, t.top)];
    }
  }

  /** The expanded palette is closed under rotation, and holds nothing but rotations of base tiles. */
  lemma ExpansionRotationClosed(base: seq<Tile>, tiles: seq<Tile>)
    requires IsExpansion(base, tiles)
    ensures RotationClosed(tiles)
    ensures forall t :: t in tiles ==>
              exists b :: b in base &&
                (t == b || t == Rotate(b) || t == Rotate(Rotate(b)) || t == Rotate(Rotate(Rotate(b))))
  {
    var n := |base|;
    forall t | t in tiles
      ensures Rotate(t) in tiles
      ensures exists b :: b in base &&
                (t == b || t == Rotate(b) || t == Rotate(Rotate(b)) || t == Rotate(Rotate(Rotate(b))))
    {
      var k :| 0 <= k < |tiles| && tiles[k] == t;
      if k < n {
        assert tiles[..n][k] == t;
        assert t in base && t == t;
        assert tiles[n + 3 * k] == Rotate(t);
      } else {
        var i, r := (k - n) / 3, (k - n) % 3;
        assert k == n + 3 * i + r && 0 <= i < n;
        var b := base[i];
        assert b in base;
        if r == 0 {
          assert t == Rotate(b) && tiles[k + 1] == Rotate(t);
        } else if r == 1 {
          assert t == Rotate(Rotate(b)) && tiles[k + 1] == Rotate(t);
        } else {
          assert t == Rotate(Rotate(Rotate(b)));
          RotateMovesFaces(b, Up);
          assert tiles[..n][i] == b == Rotate(t);
        }
        assert b in base && (t == b || t == Rotate(b) || t == Rotate(Rotate(b)) || t == Rotate(Rotate(Rotate(b))));
      }
    }
  }

  /** The map of the draft: a fixed grid of cells, each with its remaining possibilities. */
  class TileMap {
    const palette: seq<Tile>
    var cells: Grid

    /** Side sets derived, flags only where a change still has to be propagated, and
        collapsed neighbours agreeing: the state between two calls of Collapse. */
    ghost predicate Valid()
      reads this
    {
      Settled(cells)
    }

    /** The palette with all rotations, every cell holding the whole palette, the coordinates filled in. */
    constructor ()
      ensures Valid()
      ensures IsExpansion(BaseTiles, palette) && RotationClosed(palette)
      ensures Fresh(cells, palette)
    {
      var tiles := ExpandRotations(BaseTiles);
      palette := tiles;
      cells := seq(MapHeight, _ => seq(MapWidth, _ => BlankCell(tiles)));
      new;
      var y := 0;
      while y < MapHeight
        invariant 0 <= y <= MapHeight && WellShaped(cells)
        invariant forall j, i :: InBounds(i, j) ==>
                    cells[j][i] == if j < y then BlankCell(palette).(x := i, y := j) else BlankCell(palette)
      {
        var x := 0;
        while x < MapWidth
          invariant 0 <= x <= MapWidth && WellShaped(cells)
          invariant forall j, i :: InBounds(i, j) ==>
                      cells[j][i] == if j < y || (j == y && i < x) then BlankCell(palette).(x := i, y := j)
                                     else BlankCell(palette)
        {
          cells := SetCell(cells, x, y, cells[y][x].(x := x, y := y));
          x := x + 1;
        }
        y := y + 1;
      }
      ExpansionRotationClosed(BaseTiles, palette);
      FreshIsSettled(cells, palette);
    }

    /** The possibilities of `tile`, which sits at (x, y), that pass the four neighbour checks. */
    method GetPossibleTiles(x: int, y: int, tile: MapTile) returns (filtered: seq<Tile>)
      requires WellShaped(cells) && InBounds(x, y)
      ensures filtered == FittingTiles(cells, x, y, tile.possibilities)
    {
      filtered := [];
      var poss := tile.possibilities;
      for k := 0 to |poss|
        invariant filtered == FittingTiles(cells, x, y, poss[..k])
      {
        var t := poss[k];
        FittingTilesAppend(cells, x, y, poss[..k], t);
        assert poss[..k + 1] == poss[..k] + [t];
        if PassesChecks(cells, x, y, t) {
          filtered := filtered + [t];
        }
      }
      assert poss[..|poss|] == poss;
    }

    /** The first half of a propagation visit: refilter (x, y), recompute its side sets,
        clear its own flags, and flag the reverse records if its possibility count changed. */
    method RefilterCell(x: int, y: int)
      requires WellShaped(cells) && InBounds(x, y)
      modifies this
      ensures cells == Refiltered(old(cells), x, y)
    {
      ghost var g0 := cells;
      var mapTile := cells[y][x];
      var originalPossibilities := |mapTile.possibilities|;
      var poss := GetPossibleTiles(x, y, mapTile);
      cells := SetCell(cells, x, y, mapTile.(possibilities := poss, sides := SidesOf(poss)));
      var changed := originalPossibilities != |poss|;
      var deps := Dependencies(x, y);
      DependenciesExact(x, y);
      ghost var g1 := cells;
      assert g1 == SetCell(g0, x, y, FilteredCell(g0, x, y));
      for k := 0 to |deps|
        invariant WellShaped(cells)
        invariant cells == NotifyAll(g1, x, y, deps[..k], true, changed)
      {
        NotifyAllStep(g1, x, y, deps, k, true, changed);
        cells := NotifyOne(cells, x, y, deps[k], true, changed);
      }
      assert deps[..|deps|] == deps;
    }

    /** The refilter step of a visit, stated as the visit's starting invariant. */
    method BeginVisit(x: int, y: int)
      requires WellFormed(cells) && FlagsSound(cells) && InBounds(x, y)
      modifies this
      ensures VisitInvariant(old(cells), cells, x, y, 0)
    {
      ghost var g0 := cells;
      RefilterCell(x, y);
      VisitStart(g0, x, y);
    }

    /** Refilter (x, y), then visit every uncollapsed neighbour that has a flag set.
        Terminates because each visit either removes a possibility or clears a flag. */
    method Propagate(x: int, y: int)
      requires WellFormed(cells) && FlagsSound(cells) && InBounds(x, y)
      modifies this
      decreases TotalPossibilities(cells), TotalFlags(cells), if cells[y][x].changed == {} then 1 else 0
      ensures WellFormed(cells) && FlagsSound(cells)
      ensures Narrowed(old(cells), cells) && KeepsCollapsed(old(cells), cells, x, y)
      ensures PendingShrinks(old(cells), cells, x, y)
      ensures Progress(old(cells), cells, x, y)
      ensures old(cells)[y][x].collapsed ==>
                cells[y][x].possibilities == FittingTiles(old(cells), x, y, old(cells)[y][x].possibilities)
    {
      ghost var g0 := cells;
      BeginVisit(x, y);
      var deps := Dependencies(x, y);
      DependenciesExact(x, y);
      for k := 0 to |deps|
        invariant VisitInvariant(g0, cells, x, y, k)
      {
        var d := deps[k];
        var nx, ny := x + Dx(d), y + Dy(d);
        assert d in deps && WellShaped(cells);
        assert InBounds(nx, ny);
        if !cells[ny][nx].collapsed && cells[ny][nx].changed != {} {
          ghost var g1 := cells;
          Propagate(nx, ny);
          VisitStep(g0, g1, cells, x, y, k);
        } else {
          VisitSkip(g0, cells, x, y, k);
        }
      }
      VisitEnd(g0, cells, x, y);
    }

    /** The first half of a collapse: (x, y) set to the single tile with singleton side sets
        and marked collapsed, and the reverse record of each of its dependencies flagged. */
    method SetCollapsed(x: int, y: int, tile: Tile)
      requires WellShaped(cells) && InBounds(x, y)
      modifies this
      ensures cells == CollapsedAt(old(cells), x, y, tile)
    {
      cells := SetCell(cells, x, y, CollapsedCell(cells[y][x], tile));
      var deps := Dependencies(x, y);
      DependenciesExact(x, y);
      ghost var g1 := cells;
      for k := 0 to |deps|
        invariant WellShaped(cells)
        invariant cells == NotifyAll(g1, x, y, deps[..k], false, true)
      {
        NotifyAllStep(g1, x, y, deps, k, false, true);
        cells := NotifyOne(cells, x, y, deps[k], false, true);
      }
      assert deps[..|deps|] == deps;
    }

    /** Collapse (x, y) to `tile` if it is still one of its possibilities, then propagate. */
    method Collapse(x: int, y: int, tile: Tile)
      requires Valid() && InBounds(x, y)
      modifies this
      ensures Valid()
      ensures tile !in old(cells)[y][x].possibilities ==> cells == old(cells)
      ensures tile in old(cells)[y][x].possibilities ==>
                && cells[y][x].collapsed
                && IsSubsequence(cells[y][x].possibilities, [tile])
                && (!old(cells)[y][x].collapsed ==> cells[y][x].possibilities == [tile])
                && (forall i, j :: InBounds(i, j) && !(i == x && j == y) ==> CellNarrowed(old(cells), cells, i, j))
                && KeepsCollapsed(old(cells), cells, x, y)
    {
      var possibleTiles := cells[y][x].possibilities;
      if tile in possibleTiles {
        ghost var g0 := cells;
        SetCollapsed(x, y, tile);
        CollapsedAtFacts(g0, x, y, tile);
        ghost var g1 := cells;
        Propagate(x, y);
        CollapseFinish(g0, g1, cells, x, y, tile);
      }
    }

    /** The cell the full-collapse loop picks: among the uncollapsed cells in row-major order,
        the first with the fewest possibilities. */
    method SelectCell() returns (found: bool, cx: int, cy: int)
      requires WellShaped(cells)
      ensures found <==> exists i, j :: InBounds(i, j) && !cells[j][i].collapsed
      ensures found ==> FirstLeastOpen(cells, cx, cy)
    {
      found, cx, cy := false, 0, 0;
      for k := 0 to MapWidth * MapHeight
        invariant found <==> exists i, j :: InBounds(i, j) && Position(i, j) < k && !cells[j][i].collapsed
        invariant found ==> InBounds(cx, cy) && Position(cx, cy) < k && !cells[cy][cx].collapsed
        invariant found ==> forall i, j :: InBounds(i, j) && Position(i, j) < k && !cells[j][i].collapsed ==>
                    |cells[cy][cx].possibilities| <= |cells[j][i].possibilities| &&
                    (Position(i, j) < Position(cx, cy) ==> |cells[cy][cx].possibilities| < |cells[j][i].possibilities|)
      {
        var x, y := k % MapWidth, k / MapWidth;
        assert InBounds(x, y) && Position(x, y) == k;
        var c := cells[y][x];
        if !c.collapsed && (!found || |c.possibilities| < |cells[cy][cx].possibilities|) {
          found, cx, cy := true, x, y;
        }
      }
    }

    /** One round of the full-collapse loop. `draw` stands for the random number that picks
        which possibility of the chosen cell to collapse to; (x, y) is the chosen cell. */
    method CollapseStep(draw: nat) returns (finished: bool, x: int, y: int)
      requires Valid()
      modifies this
      ensures Valid()
      ensures finished <==> AllCollapsed(old(cells))
      ensures !finished ==> FirstLeastOpen(old(cells), x, y)
      ensures finished || Stuck(old(cells)) ==> cells == old(cells)
      ensures !finished && !Stuck(old(cells)) ==>
                && |old(cells)[y][x].possibilities| > 0
                && cells[y][x].collapsed
                && cells[y][x].possibilities == [old(cells)[y][x].possibilities[draw % |old(cells)[y][x].possibilities|]]
                && UncollapsedCount(cells) + 1 == UncollapsedCount(old(cells))
                && (forall i, j :: InBounds(i, j) && !(i == x && j == y) ==> CellNarrowed(old(cells), cells, i, j))
                && KeepsCollapsed(old(cells), cells, x, y)
    {
      var found;
      found, x, y := SelectCell();
      if !found {
        return true, x, y;
      }
      FirstLeastOpenStuck(cells, x, y);
      var poss := cells[y][x].possibilities;
      if |poss| > 0 {
        ghost var g0 := cells;
        Collapse(x, y, poss[draw % |poss|]);
        UncollapsedCountDrops(g0, cells, x, y);
      }
      return false, x, y;
    }

    /** The full-collapse loop, run for at most |draws| rounds. */
    method FullCollapse(draws: seq<nat>) returns (finished: bool)
      requires Valid()
      modifies this
      ensures Valid()
      ensures finished ==> AllCollapsed(cells)
      ensures !finished && |draws| > UncollapsedCount(old(cells)) ==> Stuck(cells)
    {
      ghost var g0 := cells;
      finished := false;
      var i := 0;
      while i < |draws| && !finished
        invariant 0 <= i <= |draws| && Valid()
        invariant finished ==> AllCollapsed(cells)
        invariant !finished ==> Stuck(cells) || UncollapsedCount(cells) + i == UncollapsedCount(g0)
      {
        var cx, cy;
        finished, cx, cy := CollapseStep(draws[i]);
        i := i + 1;
      }
    }
  }
}
