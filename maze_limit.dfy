/** Limiting a tile map to a maze (limitMapToMaze): the per-cell candidate
    filters and the row-major loop that narrows every cell and stops at the
    first cell left without tiles. The narrowing step itself belongs to the
    map and is a parameter here. */
module MazeLimit {
  import opened Common
  import opened Utils

  datatype MazeLimitOptions = MazeLimitOptions(sideType: Side, allowSideConnections: bool,
                                               allowTilesOutsideWithSide: bool)

  /** A maze cell as the limiter reads it: whether it is part of the maze and
      which of its walls are open. */
  datatype MazeCellView = MazeCellView(isMaze: bool, topOpen: bool, rightOpen: bool,
                                       bottomOpen: bool, leftOpen: bool)

  function WallOpen(c: MazeCellView, d: Direction): bool {
    match d
    case Up => c.topOpen
    case Right => c.rightOpen
    case Down => c.bottomOpen
    case Left => c.leftOpen
  }

  /** The options in force during the loop: side connections are switched off
      whenever tiles outside the maze may not carry the side. */
  function EffectiveOptions(o: MazeLimitOptions): (r: MazeLimitOptions)
    ensures r.sideType == o.sideType && r.allowTilesOutsideWithSide == o.allowTilesOutsideWithSide
    ensures r.allowSideConnections <==> o.allowSideConnections && o.allowTilesOutsideWithSide
  {
    if !o.allowTilesOutsideWithSide then o.(allowSideConnections := false) else o
  }

  // ------------------------------------------------------------------
  // Candidate filters
  // ------------------------------------------------------------------

  /** The check applied to one side: an open wall demands the side type, a
      closed wall forbids it unless side connections are allowed. */
  predicate SideAllowed(open: bool, side: Side, o: MazeLimitOptions) {
    if open then side == o.sideType
    else !(!o.allowSideConnections && side == o.sideType)
  }

  /** The filter kept for a maze cell, in the order top, right, bottom, left. */
  predicate KeepInMaze(t: Tile, c: MazeCellView, o: MazeLimitOptions) {
    && SideAllowed(c.topOpen, t.top, o)
    && SideAllowed(c.rightOpen, t.right, o)
    && SideAllowed(c.bottomOpen, t.bottom, o)
    && SideAllowed(c.leftOpen, t.left, o)
  }

  /** A tile is kept for a maze cell exactly when every open wall faces the
      side type and, without side connections, no closed wall does. */
  lemma KeepInMazeMeaning(t: Tile, c: MazeCellView, o: MazeLimitOptions)
    ensures KeepInMaze(t, c, o) <==>
              forall d: Direction ::
                (WallOpen(c, d) ==> Face(t, d) == o.sideType) &&
                (!WallOpen(c, d) && !o.allowSideConnections ==> Face(t, d) != o.sideType)
  {
    if KeepInMaze(t, c, o) {
      forall d: Direction
        ensures (WallOpen(c, d) ==> Face(t, d) == o.sideType) &&
                (!WallOpen(c, d) && !o.allowSideConnections ==> Face(t, d) != o.sideType)
      {
        match d
        case Up => assert SideAllowed(c.topOpen, t.top, o);
        case Right => assert SideAllowed(c.rightOpen, t.right, o);
        case Down => assert SideAllowed(c.bottomOpen, t.bottom, o);
        case Left => assert SideAllowed(c.leftOpen, t.left, o);
      }
    } else {
      var d: Direction :| !SideAllowed(WallOpen(c, d), Face(t, d), o);
      assert !SideAllowed(WallOpen(c, d), Face(t, d), o);
    }
  }

  /** The filter kept for a cell outside the maze. */
  predicate KeepOutside(t: Tile, sideType: Side) {
    t.bottom != sideType && t.top != sideType && t.left != sideType && t.right != sideType
  }

  lemma KeepOutsideMeaning(t: Tile, sideType: Side)
    ensures KeepOutside(t, sideType) <==> forall d: Direction :: Face(t, d) != sideType
  {
    if !KeepOutside(t, sideType) {
      if t.top == sideType {
        assert Face(t, Up) == sideType;
      } else if t.right == sideType {
        assert Face(t, Right) == sideType;
      } else if t.bottom == sideType {
        assert Face(t, Down) == sideType;
      } else {
        assert Face(t, Left) == sideType;
      }
    }
  }

  /** The possible tiles of a maze cell that pass KeepInMaze, in order. */
  function MazeCandidates(tiles: seq<Tile>, c: MazeCellView, o: MazeLimitOptions): (r: seq<Tile>)
    ensures IsSubsequence(r, tiles)
    ensures forall t :: multiset(r)[t] == if KeepInMaze(t, c, o) then multiset(tiles)[t] else 0
  {
    if tiles == [] then []
    else
      var rest := MazeCandidates(tiles[1..], c, o);
      assert tiles == [tiles[0]] + tiles[1..];
      if KeepInMaze(tiles[0], c, o) then [tiles[0]] + rest else rest
  }

  /** The possible tiles of a cell outside the maze that pass KeepOutside, in order. */
  function OutsideCandidates(tiles: seq<Tile>, sideType: Side): (r: seq<Tile>)
    ensures IsSubsequence(r, tiles)
    ensures forall t :: multiset(r)[t] == if KeepOutside(t, sideType) then multiset(tiles)[t] else 0
  {
    if tiles == [] then []
    else
      var rest := OutsideCandidates(tiles[1..], sideType);
      assert tiles == [tiles[0]] + tiles[1..];
      if KeepOutside(tiles[0], sideType) then [tiles[0]] + rest else rest
  }

  /** The list handed to the narrowing step for one cell, or None when the cell
      is skipped (outside the maze while outside tiles may carry the side). */
  function Candidates(tiles: seq<Tile>, c: MazeCellView, o: MazeLimitOptions): Option<seq<Tile>> {
    if c.isMaze then Some(MazeCandidates(tiles, c, o))
    else if o.allowTilesOutsideWithSide then None
    else Some(OutsideCandidates(tiles, o.sideType))
  }

  /** Under the options in force: a cell is skipped exactly when it is outside
      the maze and outside tiles may carry the side; every candidate of a maze
      cell carries the side type towards each open wall, and none towards a
      closed wall unless outside tiles may carry it and side connections are
      on; every candidate outside the maze is free of the side type. Nothing
      else is dropped. */
  lemma CandidatesMeaning(tiles: seq<Tile>, c: MazeCellView, options: MazeLimitOptions, t: Tile)
    ensures var o := EffectiveOptions(options);
            Candidates(tiles, c, o).None? <==> !c.isMaze && options.allowTilesOutsideWithSide
    ensures var o := EffectiveOptions(options);
            Candidates(tiles, c, o).Some? ==>
              (t in Candidates(tiles, c, o).value <==>
                 t in tiles &&
                 forall d: Direction ::
                   if c.isMaze then
                     (WallOpen(c, d) ==> Face(t, d) == options.sideType) &&
                     (!WallOpen(c, d) && !(options.allowSideConnections && options.allowTilesOutsideWithSide) ==>
                        Face(t, d) != options.sideType)
                   else Face(t, d) != options.sideType)
  {
    var o := EffectiveOptions(options);
    assert t in tiles <==> multiset(tiles)[t] > 0;
    if c.isMaze {
      KeepInMazeMeaning(t, c, o);
      var r := MazeCandidates(tiles, c, o);
      assert t in r <==> multiset(r)[t] > 0;
    } else if !options.allowTilesOutsideWithSide {
      KeepOutsideMeaning(t, o.sideType);
      var r := OutsideCandidates(tiles, o.sideType);
      assert t in r <==> multiset(r)[t] > 0;
    }
  }

  // ------------------------------------------------------------------
  // The row-major narrowing loop
  // ------------------------------------------------------------------

  /** Result of the map's narrowing step: whether tiles are left, and the map after it. */
  datatype Narrowing<S> = Narrowing(success: bool, board: S)

  /** What the limiter needs of a map: its size, the possible tiles of a cell,
      and the narrowing step that restricts a cell to a list and propagates. */
  datatype MapAccess<!S> = MapAccess(width: nat, height: nat,
                                    possible: (S, nat, nat) -> seq<Tile>,
                                    narrow: (S, nat, nat, seq<Tile>) -> Narrowing<S>)

  /** How limiting ends: every cell narrowed, the error naming the first cell
      left without tiles, or the maze having no row y at all (reading a cell of a
      missing row fails). */
  datatype Outcome = Limited | NoTilesLeft(x: nat, y: nat) | MissingMazeRow(y: nat)

  /** The maze cell at (x, y) of an existing row; None stands for undefined. */
  function MazeCellAt(maze: seq<seq<Option<MazeCellView>>>, x: nat, y: nat): Option<MazeCellView>
    requires y < |maze|
  {
    if x < |maze[y]| then maze[y][x] else None
  }

  /** The loop from cell (x, y) on, in row-major order, with the options in force:
      the reference definition LimitMapToMaze's nested loops are proved against;
      CandidatesMeaning, FailureIsNarrowing and LaterCellsUntouched give it meaning. */
  function LimitFrom<S>(m: MapAccess<S>, maze: seq<seq<Option<MazeCellView>>>, o: MazeLimitOptions,
                        s: S, x: nat, y: nat): (Outcome, S)
    decreases m.height - y, m.width - x
  {
    if y >= m.height then (Limited, s)
    else if x >= m.width then LimitFrom(m, maze, o, s, 0, y + 1)
    else if y >= |maze| then (MissingMazeRow(y), s)
    else
      match MazeCellAt(maze, x, y)
      case None => LimitFrom(m, maze, o, s, x + 1, y)
      case Some(c) =>
        match Candidates(m.possible(s, x, y), c, o)
        case None => LimitFrom(m, maze, o, s, x + 1, y)
        case Some(list) =>
          var n := m.narrow(s, x, y, list);
          if !n.success then (NoTilesLeft(x, y), n.board)
          else LimitFrom(m, maze, o, n.board, x + 1, y)
  }

  /** limitMapToMaze: returns how limiting ended, the map afterwards and the
      options object as the call leaves it. */
  method LimitMapToMaze<S>(m: MapAccess<S>, board: S, maze: seq<seq<Option<MazeCellView>>>,
                           options: MazeLimitOptions)
    returns (outcome: Outcome, final: S, used: MazeLimitOptions)
    ensures used == EffectiveOptions(options)
    ensures (outcome, final) == LimitFrom(m, maze, used, board, 0, 0)
  {
    used := options;
    if !used.allowTilesOutsideWithSide {
      used := used.(allowSideConnections := false);
    }
    var s := board;
    for y := 0 to m.height
      invariant LimitFrom(m, maze, used, s, 0, y) == LimitFrom(m, maze, used, board, 0, 0)
    {
      for x := 0 to m.width
        invariant LimitFrom(m, maze, used, s, x, y) == LimitFrom(m, maze, used, board, 0, 0)
      {
        if y >= |maze| {
          return MissingMazeRow(y), s, used;
        }
        var cell := if x < |maze[y]| then maze[y][x] else None;
        if cell == None {
          continue;
        }
        var list := Candidates(m.possible(s, x, y), cell.value, used);
        if list == None {
          continue;
        }
        var n := m.narrow(s, x, y, list.value);
        if !n.success {
          return NoTilesLeft(x, y), n.board, used;
        }
        s := n.board;
      }
    }
    outcome, final := Limited, s;
  }

  /** Row-major order: (x1, y1) comes no later than (x2, y2). */
  predicate NoLater(x1: nat, y1: nat, x2: nat, y2: nat) {
    y1 < y2 || (y1 == y2 && x1 <= x2)
  }

  /** Two maps agree on the narrowing steps of every cell up to (fx, fy). */
  ghost predicate AgreeUpTo<S(!new)>(m1: MapAccess<S>, m2: MapAccess<S>, fx: nat, fy: nat) {
    && m1.width == m2.width && m1.height == m2.height
    && (forall s, x, y :: NoLater(x, y, fx, fy) ==> m1.possible(s, x, y) == m2.possible(s, x, y))
    && (forall s, x, y, l :: NoLater(x, y, fx, fy) ==> m1.narrow(s, x, y, l) == m2.narrow(s, x, y, l))
  }

  /** At (fx, fy), from map state t, the cell gets a candidate list and the
      narrowing step fails on it, leaving the map `final`. */
  ghost predicate NarrowFailsAt<S>(m: MapAccess<S>, maze: seq<seq<Option<MazeCellView>>>, o: MazeLimitOptions,
                             t: S, fx: nat, fy: nat, final: S)
  {
    && fy < |maze| && MazeCellAt(maze, fx, fy).Some?
    && var list := Candidates(m.possible(t, fx, fy), MazeCellAt(maze, fx, fy).value, o);
       list.Some? && m.narrow(t, fx, fy, list.value) == Narrowing(false, final)
  }

  /** A failure reported by a run started at (x, y) names a cell the run reached
      (in bounds, at or after the start, inside the maze grid), where the cell had
      a candidate list, narrowing it failed, and the map it left is the result. */
  ghost predicate FailsWithin<S(!new)>(m: MapAccess<S>, maze: seq<seq<Option<MazeCellView>>>, o: MazeLimitOptions,
                                       x: nat, y: nat, r: (Outcome, S))
  {
    r.0.NoTilesLeft? ==>
      && NoLater(x, y, r.0.x, r.0.y)
      && r.0.x < m.width && r.0.y < m.height
      && exists t :: NarrowFailsAt(m, maze, o, t, r.0.x, r.0.y, r.1)
  }

  lemma {:induction false} FailureIsNarrowing<S(!new)>(m: MapAccess<S>, maze: seq<seq<Option<MazeCellView>>>,
                                                       o: MazeLimitOptions, s: S, x: nat, y: nat)
    ensures FailsWithin(m, maze, o, x, y, LimitFrom(m, maze, o, s, x, y))
    decreases m.height - y, m.width - x
  {
    var r := LimitFrom(m, maze, o, s, x, y);
    if y < m.height {
      if x >= m.width {
        FailureIsNarrowing(m, maze, o, s, 0, y + 1);
        FailsWithinEarlier(m, maze, o, x, y, 0, y + 1, r);
      } else if y < |maze| {
        match MazeCellAt(maze, x, y)
        case None =>
          FailureIsNarrowing(m, maze, o, s, x + 1, y);
          FailsWithinEarlier(m, maze, o, x, y, x + 1, y, r);
        case Some(c) =>
          match Candidates(m.possible(s, x, y), c, o)
          case None =>
            FailureIsNarrowing(m, maze, o, s, x + 1, y);
            FailsWithinEarlier(m, maze, o, x, y, x + 1, y, r);
          case Some(list) =>
            var n := m.narrow(s, x, y, list);
            if n.success {
              FailureIsNarrowing(m, maze, o, n.board, x + 1, y);
              FailsWithinEarlier(m, maze, o, x, y, x + 1, y, r);
            } else {
              assert r == (NoTilesLeft(x, y), n.board);
              assert NarrowFailsAt(m, maze, o, s, x, y, n.board);
            }
      }
    }
  }

  /** A failure within a run from a later start is within the run from an earlier one. */
  lemma FailsWithinEarlier<S(!new)>(m: MapAccess<S>, maze: seq<seq<Option<MazeCellView>>>, o: MazeLimitOptions,
                                    x: nat, y: nat, x2: nat, y2: nat, r: (Outcome, S))
    requires NoLater(x, y, x2, y2) && FailsWithin(m, maze, o, x2, y2, r)
    ensures FailsWithin(m, maze, o, x, y, r)
  {
  }

  /** The failing cell is in bounds and not before the start. */
  lemma FailureNotBefore<S(!new)>(m: MapAccess<S>, maze: seq<seq<Option<MazeCellView>>>,
                                  o: MazeLimitOptions, s: S, x: nat, y: nat, fx: nat, fy: nat)
    requires LimitFrom(m, maze, o, s, x, y).0 == NoTilesLeft(fx, fy)
    ensures NoLater(x, y, fx, fy) && fx < m.width && fy < m.height
  {
    FailureIsNarrowing(m, maze, o, s, x, y);
  }

  /** Limiting stops at the first failure: once a run fails at (fx, fy), any
      map whose narrowing agrees up to that cell, whatever it would do later,
      fails at the same cell with the same map. */
  lemma {:induction false} LaterCellsUntouched<S(!new)>(m1: MapAccess<S>, m2: MapAccess<S>,
                                                  maze: seq<seq<Option<MazeCellView>>>,
                                                  o: MazeLimitOptions, s: S, x: nat, y: nat, fx: nat, fy: nat)
    requires AgreeUpTo(m1, m2, fx, fy)
    requires LimitFrom(m1, maze, o, s, x, y).0 == NoTilesLeft(fx, fy)
    ensures LimitFrom(m2, maze, o, s, x, y) == LimitFrom(m1, maze, o, s, x, y)
    decreases m1.height - y, m1.width - x
  {
    FailureNotBefore(m1, maze, o, s, x, y, fx, fy);
    if y < m1.height {
      if x >= m1.width {
        LaterCellsUntouched(m1, m2, maze, o, s, 0, y + 1, fx, fy);
      } else if y < |maze| {
        assert NoLater(x, y, fx, fy);
        assert m1.possible(s, x, y) == m2.possible(s, x, y);
        match MazeCellAt(maze, x, y)
        case None => LaterCellsUntouched(m1, m2, maze, o, s, x + 1, y, fx, fy);
        case Some(c) =>
          match Candidates(m1.possible(s, x, y), c, o)
          case None => LaterCellsUntouched(m1, m2, maze, o, s, x + 1, y, fx, fy);
          case Some(list) =>
            var n := m1.narrow(s, x, y, list);
            assert m2.narrow(s, x, y, list) == n;
            if n.success {
              LaterCellsUntouched(m1, m2, maze, o, n.board, x + 1, y, fx, fy);
            }
      }
    }
  }
}
