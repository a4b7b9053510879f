/** The palette and array utilities: turning a tilemap into oriented tiles,
    enumerating every possible tile, shuffling in place, first-occurrence
    de-duplication, and the per-tile checks of tilemap parsing. */
module Utils {
  import opened Common

  /** A palette tile: four side categories, the index of the tilemap image it
      comes from (-1 for generated tiles) and the orientation it is drawn in.
      Not the same type as CollapseGrid.Tile, the collapse draft's four-sided tile. */
  datatype Tile = Tile(top: Side, right: Side, bottom: Side, left: Side,
                       tilemapIndex: int, direction: Direction)

  /** A tile of a tilemap: a palette tile plus its cell in the tilemap image. */
  datatype TilemapTile = TilemapTile(x: int, y: int, top: Side, right: Side, bottom: Side, left: Side,
                                     tilemapIndex: int, direction: Direction)

  datatype TilemapData = TilemapData(width: int, height: int, tileSize: int, tiles: seq<TilemapTile>)

  // ------------------------------------------------------------------
  // Orientations of a tilemap tile
  // ------------------------------------------------------------------

  /** The side of t facing direction d. */
  function Face(t: Tile, d: Direction): Side {
    match d
    case Up => t.top
    case Right => t.right
    case Down => t.bottom
    case Left => t.left
  }

  /** Turning a tile a quarter to the left: each side moves one place
      anticlockwise, so the side that faced right now faces up. */
  function TurnLeft(t: Tile): (r: Tile)
    ensures forall d :: Face(r, d) == Face(t, Clockwise(d))
    ensures r.tilemapIndex == t.tilemapIndex && r.direction == t.direction
  {
    t.(top := t.right, right := t.bottom, bottom := t.left, left := t.top)
  }

  function Clockwise(d: Direction): Direction {
    match d
    case Up => Right
    case Right => Down
    case Down => Left
    case Left => Up
  }

  /** Four quarter turns give back the tile. */
  lemma TurnLeftFourTimes(t: Tile)
    ensures TurnLeft(TurnLeft(TurnLeft(TurnLeft(t)))) == t
  {
  }

  /** The orientations emitted per tilemap tile, in emission order. */
  const Orientations: seq<Direction> := [Up, Left, Down, Right]

  /** The tilemap tile t drawn in orientation d: its upright sides turned
      left once for Left, twice for Down and three times for Right, keeping the
      tilemap index. */
  function Oriented(t: TilemapTile, d: Direction): Tile {
    var upright := Tile(t.top, t.right, t.bottom, t.left, t.tilemapIndex, Up);
    var turned := match d
      case Up => upright
      case Left => TurnLeft(upright)
      case Down => TurnLeft(TurnLeft(upright))
      case Right => TurnLeft(TurnLeft(TurnLeft(upright)));
    turned.(direction := d)
  }

  /** The oriented copies keep the tilemap index, and their faces are the
      upright faces read from a turned direction. */
  lemma OrientedFaces(t: TilemapTile, d: Direction, e: Direction)
    ensures Oriented(t, d).tilemapIndex == t.tilemapIndex && Oriented(t, d).direction == d
    ensures Face(Oriented(t, Up), e) == Face(Tile(t.top, t.right, t.bottom, t.left, t.tilemapIndex, Up), e)
    ensures Face(Oriented(t, Left), e) == Face(Oriented(t, Up), Clockwise(e))
    ensures Face(Oriented(t, Down), e) == Face(Oriented(t, Up), Clockwise(Clockwise(e)))
    ensures Face(Oriented(t, Right), e) == Face(Oriented(t, Up), Clockwise(Clockwise(Clockwise(e))))
  {
  }

  lemma QuarterSplit(i: int, k: int)
    requires 0 <= i && 0 <= k < 4
    ensures (4 * i + k) / 4 == i && (4 * i + k) % 4 == k
  {
  }

  /** createTilesFromTilemapData: four tiles per tilemap tile, in the
      orientations Up, Left, Down, Right. */
  method CreateTilesFromTilemapData(data: TilemapData) returns (tiles: seq<Tile>)
    ensures |tiles| == 4 * |data.tiles|
    ensures forall m :: 0 <= m < |tiles| ==> tiles[m] == Oriented(data.tiles[m / 4], Orientations[m % 4])
  {
    tiles := [];
    for i := 0 to |data.tiles|
      invariant |tiles| == 4 * i
      invariant forall m :: 0 <= m < |tiles| ==> tiles[m] == Oriented(data.tiles[m / 4], Orientations[m % 4])
    {
      var tile := data.tiles[i];
      ghost var before := tiles;
      tiles := tiles + [Tile(tile.top, tile.right, tile.bottom, tile.left, tile.tilemapIndex, Up)];
      tiles := tiles + [Tile(tile.right, tile.bottom, tile.left, tile.top, tile.tilemapIndex, Left)];
      tiles := tiles + [Tile(tile.bottom, tile.left, tile.top, tile.right, tile.tilemapIndex, Down)];
      tiles := tiles + [Tile(tile.left, tile.top, tile.right, tile.bottom, tile.tilemapIndex, Right)];
      forall m | 0 <= m < |tiles|
        ensures tiles[m] == Oriented(data.tiles[m / 4], Orientations[m % 4])
      {
        if m >= 4 * i {
          QuarterSplit(i, m - 4 * i);
        } else {
          assert tiles[m] == before[m];
        }
      }
    }
  }

  // ------------------------------------------------------------------
  // Every possible tile
  // ------------------------------------------------------------------

  /** The i-th member of Side in declaration order (0 <= i < 5). */
  function SideNumbered(i: int): Side {
    if i == 0 then Startpeice
    else if i == 1 then Water
    else if i == 2 then Field
    else if i == 3 then Road
    else City
  }

  /** The position of s in the declaration order of Side. */
  function SideIndex(s: Side): (i: nat)
    ensures i < 5 && SideNumbered(i) == s
  {
    match s
    case Startpeice => 0
    case Water => 1
    case Field => 2
    case Road => 3
    case City => 4
  }

  /** The m-th generated tile: top varies slowest, left fastest. */
  function TileAt(m: int): Tile
    requires 0 <= m < 625
  {
    Tile(SideNumbered(m / 5 / 5 / 5), SideNumbered(m / 5 / 5 % 5), SideNumbered(m / 5 % 5), SideNumbered(m % 5), -1, Up)
  }

  /** The position at which a generated tile is emitted. */
  function TileIndex(t: Tile): (m: nat)
    ensures m < 625
  {
    125 * SideIndex(t.top) + 25 * SideIndex(t.right) + 5 * SideIndex(t.bottom) + SideIndex(t.left)
  }

  lemma TileAtDigits(a: int, b: int, c: int, d: int)
    requires 0 <= a < 5 && 0 <= b < 5 && 0 <= c < 5 && 0 <= d < 5
    ensures 0 <= 125 * a + 25 * b + 5 * c + d < 625
    ensures TileAt(125 * a + 25 * b + 5 * c + d) == Tile(SideNumbered(a), SideNumbered(b), SideNumbered(c), SideNumbered(d), -1, Up)
  {
    var m := 125 * a + 25 * b + 5 * c + d;
    DivModFive(m, 25 * a + 5 * b + c, d);
    DivModFive(m / 5, 5 * a + b, c);
    DivModFive(m / 5 / 5, a, b);
  }

  lemma DivModFive(n: int, q: int, r: int)
    requires n == 5 * q + r && 0 <= r < 5
    ensures n / 5 == q && n % 5 == r
  {
  }

  lemma SideIndexOfPosition(i: int)
    requires 0 <= i < 5
    ensures SideIndex(SideNumbered(i)) == i
  {
    if i == 0 {} else if i == 1 {} else if i == 2 {} else if i == 3 {} else {}
  }

  lemma DigitsRecompose(m: int)
    requires 0 <= m < 625
    ensures 0 <= m / 5 / 5 / 5 < 5
    ensures 125 * (m / 5 / 5 / 5) + 25 * (m / 5 / 5 % 5) + 5 * (m / 5 % 5) + m % 5 == m
  {
    var q1, d := m / 5, m % 5;
    var q2, c := q1 / 5, q1 % 5;
    var a, b := q2 / 5, q2 % 5;
    assert m == 5 * q1 + d;
    assert q1 == 5 * q2 + c;
    assert q2 == 5 * a + b;
  }

  /** TileAt and TileIndex are inverse: every combination of four sides sits at
      exactly one position, and every position holds one combination. */
  lemma TileIndexRoundTrip(t: Tile, m: int)
    requires 0 <= m < 625
    ensures t.tilemapIndex == -1 && t.direction == Up ==> TileAt(TileIndex(t)) == t
    ensures TileIndex(TileAt(m)) == m
  {
    TileAtDigits(SideIndex(t.top), SideIndex(t.right), SideIndex(t.bottom), SideIndex(t.left));
    TileAtIndexed(m);
  }

  lemma TileAtIndexed(m: int)
    requires 0 <= m < 625
    ensures TileIndex(TileAt(m)) == m
  {
    DigitsRecompose(m);
    SideIndexOfPosition(m / 5 / 5 / 5);
    SideIndexOfPosition(m / 5 / 5 % 5);
    SideIndexOfPosition(m / 5 % 5);
    SideIndexOfPosition(m % 5);
  }

  /** The tiles list holds the first n generated tiles. */
  ghost predicate GeneratedPrefix(tiles: seq<Tile>, n: int) {
    n <= 625 && |tiles| == n && forall m :: 0 <= m < n ==> tiles[m] == TileAt(m)
  }

  lemma GeneratedPrefixExtends(tiles: seq<Tile>, a: int, b: int, c: int, d: int)
    requires 0 <= a < 5 && 0 <= b < 5 && 0 <= c < 5 && 0 <= d < 5
    requires GeneratedPrefix(tiles, 125 * a + 25 * b + 5 * c + d)
    ensures GeneratedPrefix(tiles + [Tile(SideNumbered(a), SideNumbered(b), SideNumbered(c), SideNumbered(d), -1, Up)],
                            125 * a + 25 * b + 5 * c + d + 1)
  {
    TileAtDigits(a, b, c, d);
  }

  /** createAllPossibleTiles: four nested loops over the sides. */
  method CreateAllPossibleTiles() returns (tiles: seq<Tile>)
    ensures |tiles| == 625
    ensures forall m :: 0 <= m < 625 ==> tiles[m] == TileAt(m)
  {
    tiles := [];
    for a := 0 to 5
      invariant GeneratedPrefix(tiles, 125 * a)
    {
      for b := 0 to 5
        invariant GeneratedPrefix(tiles, 125 * a + 25 * b)
      {
        for c := 0 to 5
          invariant GeneratedPrefix(tiles, 125 * a + 25 * b + 5 * c)
        {
          for d := 0 to 5
            invariant GeneratedPrefix(tiles, 125 * a + 25 * b + 5 * c + d)
          {
            GeneratedPrefixExtends(tiles, a, b, c, d);
            tiles := tiles + [Tile(SideNumbered(a), SideNumbered(b), SideNumbered(c), SideNumbered(d), -1, Up)];
          }
        }
      }
    }
  }

  /** Every upright generated-tile combination occurs exactly once in the list. */
  lemma AllPossibleTilesExactlyOnce(tiles: seq<Tile>, t: Tile)
    requires |tiles| == 625 && forall m :: 0 <= m < 625 ==> tiles[m] == TileAt(m)
    requires t.tilemapIndex == -1 && t.direction == Up
    ensures forall m :: 0 <= m < |tiles| ==> (tiles[m] == t <==> m == TileIndex(t))
    ensures forall m :: 0 <= m < |tiles| ==> tiles[m].tilemapIndex == -1 && tiles[m].direction == Up
  {
    forall m | 0 <= m < |tiles|
      ensures tiles[m] == t <==> m == TileIndex(t)
    {
      TileIndexRoundTrip(t, m);
    }
  }

  // ------------------------------------------------------------------
  // Fisher-Yates shuffle
  // ------------------------------------------------------------------

  /** Position swapped with i at step i: draws[i] stands for the random
      number, reduced into 0..i as floor(random * (i + 1)) is. */
  function Pick(draws: seq<nat>, i: nat): (j: nat)
    requires i < |draws|
    ensures j <= i
  {
    draws[i] % (i + 1)
  }

  function Swap<T>(s: seq<T>, i: int, j: int): (r: seq<T>)
    requires 0 <= i < |s| && 0 <= j < |s|
    ensures |r| == |s|
  {
    s[i := s[j]][j := s[i]]
  }

  lemma SwapPermutes<T>(s: seq<T>, i: int, j: int)
    requires 0 <= i < |s| && 0 <= j < |s|
    ensures multiset(Swap(s, i, j)) == multiset(s)
  {
  }

  /** The steps i, i-1, ..., 1 of the shuffle applied to s: the reference definition
      that ShuffleArray's loop is proved against; ShuffledIsPermutation gives it meaning. */
  function ShuffledFrom<T>(s: seq<T>, draws: seq<nat>, i: int): seq<T>
    requires i < |s| && |draws| == |s|
    decreases i
  {
    if i <= 0 then s else ShuffledFrom(Swap(s, i, Pick(draws, i)), draws, i - 1)
  }

  /** The whole shuffle, from the last index down to 1. */
  function Shuffled<T>(s: seq<T>, draws: seq<nat>): seq<T>
    requires |draws| == |s|
  {
    ShuffledFrom(s, draws, |s| - 1)
  }

  lemma {:induction false} ShuffledFromPermutes<T>(s: seq<T>, draws: seq<nat>, i: int)
    requires i < |s| && |draws| == |s|
    ensures |ShuffledFrom(s, draws, i)| == |s|
    ensures multiset(ShuffledFrom(s, draws, i)) == multiset(s)
    decreases i
  {
    if i > 0 {
      SwapPermutes(s, i, Pick(draws, i));
      ShuffledFromPermutes(Swap(s, i, Pick(draws, i)), draws, i - 1);
    }
  }

  /** Whatever the draws, the shuffle is a permutation of its input. */
  lemma ShuffledIsPermutation<T>(s: seq<T>, draws: seq<nat>)
    requires |draws| == |s|
    ensures |Shuffled(s, draws)| == |s|
    ensures multiset(Shuffled(s, draws)) == multiset(s)
  {
    ShuffledFromPermutes(s, draws, |s| - 1);
  }

  /** shuffleArray: for i from the last index down to 1, swap a[i] with a[j],
      j in 0..i drawn from draws[i]. */
  method ShuffleArray<T>(a: array<T>, draws: seq<nat>)
    requires |draws| == a.Length
    modifies a
    ensures a[..] == Shuffled(old(a[..]), draws)
    ensures multiset(a[..]) == multiset(old(a[..]))
  {
    ghost var target := Shuffled(a[..], draws);
    ShuffledIsPermutation(a[..], draws);
    var i := a.Length - 1;
    while i > 0
      invariant i < a.Length
      invariant ShuffledFrom(a[..], draws, i) == target
      decreases i
    {
      var j := Pick(draws, i);
      ghost var s := a[..];
      assert ShuffledFrom(s, draws, i) == ShuffledFrom(Swap(s, i, j), draws, i - 1);
      var temp := a[i];
      a[i] := a[j];
      a[j] := temp;
      assert a[..] == Swap(s, i, j) by {
        forall k | 0 <= k < a.Length ensures a[k] == Swap(s, i, j)[k] { }
      }
      i := i - 1;
    }
    assert ShuffledFrom(a[..], draws, i) == a[..];
  }

  // ------------------------------------------------------------------
  // First-occurrence de-duplication
  // ------------------------------------------------------------------

  /** Array.prototype.indexOf: the first index holding e, or -1. */
  function IndexOf<T(==)>(s: seq<T>, e: T): (i: int)
    ensures -1 <= i < |s|
  {
    if |s| == 0 then -1
    else
      var i := IndexOf(s[..|s| - 1], e);
      if i >= 0 then i else if s[|s| - 1] == e then |s| - 1 else -1
  }

  /** IndexOf finds the first occurrence, and reports -1 exactly when there is none. */
  lemma {:induction false} IndexOfFirst<T>(s: seq<T>, e: T)
    ensures IndexOf(s, e) >= 0 ==> s[IndexOf(s, e)] == e && forall k :: 0 <= k < IndexOf(s, e) ==> s[k] != e
    ensures IndexOf(s, e) == -1 <==> e !in s
  {
    if |s| > 0 {
      var t := s[..|s| - 1];
      IndexOfFirst(t, e);
      assert forall k :: 0 <= k < |t| ==> t[k] == s[k];
      if e in t {
        var k :| 0 <= k < |t| && t[k] == e;
        assert s[k] == e;
      }
    }
  }

  /** The filter of unique over the first k elements. */
  function UniquePrefix<T(==)>(s: seq<T>, k: int): seq<T>
    requires 0 <= k <= |s|
  {
    if k == 0 then []
    else UniquePrefix(s, k - 1) + (if IndexOf(s, s[k - 1]) == k - 1 then [s[k - 1]] else [])
  }

  /** unique: keep the elements whose first index is their own index. */
  function Unique<T(==)>(s: seq<T>): seq<T> {
    UniquePrefix(s, |s|)
  }

  predicate NoDuplicates<T(==)>(s: seq<T>) {
    forall p, q :: 0 <= p < q < |s| ==> s[p] != s[q]
  }

  /** u lists, in order of first occurrence, the elements of s[..k], each
      exactly once. */
  ghost predicate FirstOccurrences<T>(s: seq<T>, k: int, u: seq<T>)
    requires 0 <= k <= |s|
  {
    && (forall p :: 0 <= p < |u| ==> 0 <= IndexOf(s, u[p]) < k)
    && (forall p :: 0 <= p < k ==> s[p] in u)
    && (forall p, q :: 0 <= p < q < |u| ==> IndexOf(s, u[p]) < IndexOf(s, u[q]))
    && IsSubsequence(u, s[..k])
  }

  /** The filter over a prefix keeps exactly the first occurrences in it. */
  lemma {:induction false} UniquePrefixFacts<T>(s: seq<T>, k: int)
    requires 0 <= k <= |s|
    ensures FirstOccurrences(s, k, UniquePrefix(s, k))
  {
    if k > 0 {
      UniquePrefixFacts(s, k - 1);
      var u := UniquePrefix(s, k - 1);
      if IndexOf(s, s[k - 1]) == k - 1 {
        assert UniquePrefix(s, k) == u + [s[k - 1]];
        FirstOccurrenceAppended(s, k, u);
      } else {
        assert UniquePrefix(s, k) == u;
        RepeatSkipped(s, k, u);
      }
    }
  }

  /** Step where s[k - 1] occurs for the first time: it is appended. */
  lemma FirstOccurrenceAppended<T>(s: seq<T>, k: int, u: seq<T>)
    requires 0 < k <= |s| && FirstOccurrences(s, k - 1, u) && IndexOf(s, s[k - 1]) == k - 1
    ensures FirstOccurrences(s, k, u + [s[k - 1]])
  {
    var v := u + [s[k - 1]];
    AppendedListed(s, k, u, v);
    AppendedCovered(s, k, u, v);
    AppendedOrdered(s, k, u, v);
    SubsequenceGrowBoth(u, s, k);
  }

  lemma AppendedCovered<T>(s: seq<T>, k: int, u: seq<T>, v: seq<T>)
    requires 0 < k <= |s| && v == u + [s[k - 1]]
    requires forall p :: 0 <= p < k - 1 ==> s[p] in u
    ensures forall p :: 0 <= p < k ==> s[p] in v
  {
    forall p | 0 <= p < k
      ensures s[p] in v
    {
      if p < k - 1 {
        assert s[p] in u;
      } else {
        assert v[|u|] == s[p];
      }
    }
  }

  lemma AppendedListed<T>(s: seq<T>, k: int, u: seq<T>, v: seq<T>)
    requires 0 < k <= |s| && IndexOf(s, s[k - 1]) == k - 1 && v == u + [s[k - 1]]
    requires forall p :: 0 <= p < |u| ==> 0 <= IndexOf(s, u[p]) < k - 1
    ensures forall p :: 0 <= p < |v| ==> 0 <= IndexOf(s, v[p]) < k
  {
    forall p | 0 <= p < |v|
      ensures 0 <= IndexOf(s, v[p]) < k
    {
      if p < |u| {
        assert v[p] == u[p];
      }
    }
  }

  lemma AppendedOrdered<T>(s: seq<T>, k: int, u: seq<T>, v: seq<T>)
    requires 0 < k <= |s| && IndexOf(s, s[k - 1]) == k - 1 && v == u + [s[k - 1]]
    requires forall p :: 0 <= p < |u| ==> 0 <= IndexOf(s, u[p]) < k - 1
    requires forall p, q :: 0 <= p < q < |u| ==> IndexOf(s, u[p]) < IndexOf(s, u[q])
    ensures forall p, q :: 0 <= p < q < |v| ==> IndexOf(s, v[p]) < IndexOf(s, v[q])
  {
    forall p, q | 0 <= p < q < |v|
      ensures IndexOf(s, v[p]) < IndexOf(s, v[q])
    {
      assert v[p] == u[p];
      if q < |u| {
        assert v[q] == u[q];
      }
    }
  }

  /** Step where s[k - 1] occurred before: the list stays as it is. */
  lemma RepeatSkipped<T>(s: seq<T>, k: int, u: seq<T>)
    requires 0 < k <= |s| && FirstOccurrences(s, k - 1, u) && IndexOf(s, s[k - 1]) != k - 1
    ensures FirstOccurrences(s, k, u)
  {
    RepeatCovered(s, k, u);
    SubsequenceGrowRight(u, s, k);
  }

  /** A repeated element is already listed, so every element of s[..k] is. */
  lemma RepeatCovered<T>(s: seq<T>, k: int, u: seq<T>)
    requires 0 < k <= |s| && IndexOf(s, s[k - 1]) != k - 1
    requires forall p :: 0 <= p < k - 1 ==> s[p] in u
    ensures forall p :: 0 <= p < k ==> s[p] in u
  {
    var i := EarlierOccurrence(s, k);
    assert s[i] in u;
  }

  /** An element that is not at its first index occurred earlier. */
  lemma EarlierOccurrence<T>(s: seq<T>, k: int) returns (i: int)
    requires 0 < k <= |s| && IndexOf(s, s[k - 1]) != k - 1
    ensures 0 <= i < k - 1 && s[i] == s[k - 1]
  {
    IndexOfFirst(s, s[k - 1]);
    i := IndexOf(s, s[k - 1]);
  }

  lemma SubsequenceGrowBoth<T>(u: seq<T>, s: seq<T>, k: int)
    requires 0 < k <= |s| && IsSubsequence(u, s[..k - 1])
    ensures IsSubsequence(u + [s[k - 1]], s[..k])
  {
    assert s[..k] == s[..k - 1] + [s[k - 1]];
    SubsequenceAppend(u, s[..k - 1], s[k - 1]);
  }

  lemma SubsequenceGrowRight<T>(u: seq<T>, s: seq<T>, k: int)
    requires 0 < k <= |s| && IsSubsequence(u, s[..k - 1])
    ensures IsSubsequence(u, s[..k])
  {
    assert s[..k] == s[..k - 1] + [s[k - 1]];
    SubsequenceSkip(u, s[..k - 1], s[k - 1]);
  }

  /** Appending the same element to both keeps a subsequence. */
  lemma {:induction false} SubsequenceAppend<T>(a: seq<T>, b: seq<T>, e: T)
    requires IsSubsequence(a, b)
    ensures IsSubsequence(a + [e], b + [e])
    decreases |b|
  {
    if a == [] {
      if b == [] {
        SubsequenceReflexive([e]);
      } else {
        assert (b + [e])[1..] == b[1..] + [e];
        SubsequenceAppend(a, b[1..], e);
      }
    } else {
      assert (a + [e])[1..] == a[1..] + [e];
      assert (b + [e])[1..] == b[1..] + [e];
      if a[0] == b[0] && IsSubsequence(a[1..], b[1..]) {
        SubsequenceAppend(a[1..], b[1..], e);
      } else {
        SubsequenceAppend(a, b[1..], e);
      }
    }
  }

  /** Appending an element to the longer side only keeps a subsequence. */
  lemma {:induction false} SubsequenceSkip<T>(a: seq<T>, b: seq<T>, e: T)
    requires IsSubsequence(a, b)
    ensures IsSubsequence(a, b + [e])
    decreases |b|
  {
    if a != [] {
      assert (b + [e])[1..] == b[1..] + [e];
      if a[0] == b[0] && IsSubsequence(a[1..], b[1..]) {
        SubsequenceSkip(a[1..], b[1..], e);
      } else {
        SubsequenceSkip(a, b[1..], e);
      }
    }
  }

  /** unique keeps exactly one copy of every element, no duplicates, in the
      order of first occurrence, as a subsequence of its input. */
  lemma UniqueFacts<T>(s: seq<T>)
    ensures NoDuplicates(Unique(s))
    ensures forall e :: e in Unique(s) <==> e in s
    ensures forall p, q :: 0 <= p < q < |Unique(s)| ==> IndexOf(s, Unique(s)[p]) < IndexOf(s, Unique(s)[q])
    ensures IsSubsequence(Unique(s), s)
  {
    var u := Unique(s);
    UniquePrefixFacts(s, |s|);
    assert s[..|s|] == s;
    forall p, q | 0 <= p < q < |u|
      ensures u[p] != u[q]
    {
      assert IndexOf(s, u[p]) < IndexOf(s, u[q]);
    }
    forall e
      ensures e in u <==> e in s
    {
      if e in u {
        var p :| 0 <= p < |u| && u[p] == e;
        IndexOfFirst(s, e);
        assert 0 <= IndexOf(s, u[p]);
      }
      if e in s {
        var p :| 0 <= p < |s| && s[p] == e;
        assert s[p] in u;
      }
    }
  }

  /** On a list without duplicates every index is a first index. */
  lemma {:induction false} UniqueOfDistinct<T>(s: seq<T>, k: int)
    requires NoDuplicates(s) && 0 <= k <= |s|
    ensures UniquePrefix(s, k) == s[..k]
  {
    if k > 0 {
      UniqueOfDistinct(s, k - 1);
      IndexOfFirst(s, s[k - 1]);
      assert IndexOf(s, s[k - 1]) == k - 1;
      assert s[..k] == s[..k - 1] + [s[k - 1]];
    }
  }

  /** unique is idempotent. */
  lemma UniqueIdempotent<T>(s: seq<T>)
    ensures Unique(Unique(s)) == Unique(s)
  {
    UniqueFacts(s);
    UniqueOfDistinct(Unique(s), |Unique(s)|);
    assert Unique(s)[..|Unique(s)|] == Unique(s);
  }

  // ------------------------------------------------------------------
  // Tilemap parsing: side names and tile placement
  // ------------------------------------------------------------------

  /** A tile as read from a tilemap file: four side names. */
  datatype RawTile = RawTile(top: string, right: string, bottom: string, left: string)

  datatype RawTilemap = RawTilemap(width: int, height: int, tileSize: int, tiles: seq<RawTile>)

  /** Why a tilemap is rejected: the shape check on the dimensions, or the side
      names of one tile, listing the offending fields (Up = top, ...) in order. */
  datatype ParseError = SchemaViolation | InvalidSides(index: nat, fields: seq<Direction>)

  datatype Result<T> = Ok(value: T) | Err(error: ParseError)

  function SideName(s: Side): string {
    match s
    case Startpeice => "Startpeice"
    case Water => "Water"
    case Field => "Field"
    case Road => "Road"
    case City => "City"
  }

  /** Side[name] for a name among the member names of Side. */
  function SideFromName(name: string): Option<Side> {
    if name == "Startpeice" then Some(Startpeice)
    else if name == "Water" then Some(Water)
    else if name == "Field" then Some(Field)
    else if name == "Road" then Some(Road)
    else if name == "City" then Some(City)
    else None
  }

  /** Names and sides correspond one to one. */
  lemma SideNameRoundTrip(s: Side, name: string)
    ensures SideFromName(SideName(s)) == Some(s)
    ensures SideFromName(name) == Some(s) <==> name == SideName(s)
    ensures SideFromName(name) == None <==> forall t: Side :: name != SideName(t)
  {
    if SideFromName(name) != None {
      assert name == SideName(SideFromName(name).value);
    }
  }

  function FieldName(t: RawTile, d: Direction): string {
    match d
    case Up => t.top
    case Right => t.right
    case Down => t.bottom
    case Left => t.left
  }

  /** The issues raised for one tile: the invalid fields in the order top,
      right, bottom, left. */
  function Issues(t: RawTile): seq<Direction> {
    (if SideFromName(t.top) == None then [Up] else []) +
    (if SideFromName(t.right) == None then [Right] else []) +
    (if SideFromName(t.bottom) == None then [Down] else []) +
    (if SideFromName(t.left) == None then [Left] else [])
  }

  lemma IssuesExact(t: RawTile)
    ensures forall d :: d in Issues(t) <==> SideFromName(FieldName(t, d)) == None
    ensures NoDuplicates(Issues(t))
  {
  }

  /** The position of the first tile, from position `from` on, with an issue:
      the mapping stops there. */
  function FirstIssue(tiles: seq<RawTile>, from: nat): (k: Option<nat>)
    requires from <= |tiles|
    ensures k.Some? ==> from <= k.value < |tiles| && Issues(tiles[k.value]) != [] &&
                        forall i :: from <= i < k.value ==> Issues(tiles[i]) == []
    ensures k.None? ==> forall i :: from <= i < |tiles| ==> Issues(tiles[i]) == []
    decreases |tiles| - from
  {
    if from == |tiles| then None
    else if Issues(tiles[from]) != [] then Some(from)
    else FirstIssue(tiles, from + 1)
  }

  /** The parsed tile at position index: its cell in a tilemap `width` cells
      wide, its named sides, facing Up. */
  function PlaceTile(t: RawTile, width: int, index: int): TilemapTile
    requires width > 0 && Issues(t) == []
  {
    TilemapTile(index % width, index / width,
                SideFromName(t.top).value, SideFromName(t.right).value,
                SideFromName(t.bottom).value, SideFromName(t.left).value,
                index, Up)
  }

  /** The per-tile mapping: every tile placed, unless some tile has an issue. */
  function ParseTiles(tiles: seq<RawTile>, width: int): Result<seq<TilemapTile>>
    requires width > 0
  {
    match FirstIssue(tiles, 0)
    case Some(k) => Err(InvalidSides(k, Issues(tiles[k])))
    case None => Ok(seq(|tiles|, i requires 0 <= i < |tiles| => PlaceTile(tiles[i], width, i)))
  }

  /** parseTilemapData: dimensions must be positive, then every tile is placed. */
  function ParseTilemapData(raw: RawTilemap): Result<TilemapData> {
    if raw.width <= 0 || raw.height <= 0 || raw.tileSize <= 0 then Err(SchemaViolation)
    else
      match ParseTiles(raw.tiles, raw.width)
      case Err(e) => Err(e)
      case Ok(tiles) => Ok(TilemapData(raw.width, raw.height, raw.tileSize, tiles))
  }

  predicate ValidNames(t: RawTile) {
    forall d: Direction :: SideFromName(FieldName(t, d)) != None
  }

  /** The tile at position index of a parsed tilemap. */
  predicate PlacedAt(p: TilemapTile, t: RawTile, width: int, index: int)
    requires width > 0
  {
    && p.x == index % width && p.y == index / width
    && p.tilemapIndex == index && p.direction == Up
    && SideFromName(t.top) == Some(p.top) && SideFromName(t.right) == Some(p.right)
    && SideFromName(t.bottom) == Some(p.bottom) && SideFromName(t.left) == Some(p.left)
  }

  lemma NoIssuesIffValid(t: RawTile)
    ensures Issues(t) == [] <==> ValidNames(t)
  {
    IssuesExact(t);
    if Issues(t) != [] {
      assert SideFromName(FieldName(t, Issues(t)[0])) == None;
    }
  }

  /** A tilemap parses exactly when its dimensions are positive and every side
      name is a Side member; then tile i sits at (i mod width, i div width),
      carries index i, faces Up and has the named sides. A rejection names the
      first offending tile and its offending fields. */
  lemma ParseTilemapDataFacts(raw: RawTilemap)
    ensures ParseTilemapData(raw).Ok? <==>
              raw.width > 0 && raw.height > 0 && raw.tileSize > 0 &&
              forall i :: 0 <= i < |raw.tiles| ==> ValidNames(raw.tiles[i])
    ensures ParseTilemapData(raw).Ok? ==>
              var d := ParseTilemapData(raw).value;
              d.width == raw.width && d.height == raw.height && d.tileSize == raw.tileSize &&
              |d.tiles| == |raw.tiles| &&
              forall i :: 0 <= i < |raw.tiles| ==>
                PlacedAt(d.tiles[i], raw.tiles[i], raw.width, i) &&
                0 <= d.tiles[i].x < raw.width && d.tiles[i].y * raw.width + d.tiles[i].x == i
    ensures ParseTilemapData(raw).Err? && ParseTilemapData(raw).error.InvalidSides? ==>
              var e := ParseTilemapData(raw).error;
              e.index < |raw.tiles| && e.fields == Issues(raw.tiles[e.index]) && !ValidNames(raw.tiles[e.index]) &&
              forall i :: 0 <= i < e.index ==> ValidNames(raw.tiles[i])
  {
    if raw.width > 0 && raw.height > 0 && raw.tileSize > 0 {
      var k := FirstIssue(raw.tiles, 0);
      if k.Some? {
        NoIssuesIffValid(raw.tiles[k.value]);
        forall i | 0 <= i < k.value ensures ValidNames(raw.tiles[i]) {
          NoIssuesIffValid(raw.tiles[i]);
        }
      } else {
        var d := ParseTilemapData(raw).value;
        forall i | 0 <= i < |raw.tiles|
          ensures ValidNames(raw.tiles[i])
          ensures PlacedAt(d.tiles[i], raw.tiles[i], raw.width, i)
          ensures 0 <= d.tiles[i].x < raw.width && d.tiles[i].y * raw.width + d.tiles[i].x == i
        {
          NoIssuesIffValid(raw.tiles[i]);
          Euclid(i, raw.width);
        }
      }
    }
  }

  lemma Euclid(i: nat, w: int)
    requires w > 0
    ensures 0 <= i % w < w && (i / w) * w + i % w == i
  {
  }
}
