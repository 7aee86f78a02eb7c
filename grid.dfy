/**
 Toroidal grid geometry of the game map: directional wrap distances, the
 step (toroidal Manhattan) distance, the index <-> (x, y) bijection and the
 two neighbourhood enumerations used by the map analysis.

 The map is H rows by W columns; cell (x, y) has index x + W * y. Moving
 south or east increases y or x; every axis wraps around. For the positive
 divisors used here Dafny's `/` and `%` agree with Python's `//` and `%`.
 */
module Grid {

  /** A grid extent: the height or the width of the game map, never zero. */
  type Extent = n: int | n >= 1 witness 1

  datatype Pos = Pos(x: int, y: int)

  datatype Direction = North | South | East | West | Still

  /** The four directional step counts returned by the distance routine. */
  datatype Distances = Distances(north: int, south: int, east: int, west: int)

  function Abs(a: int): (r: nat) { if a < 0 then -a else a }

  function Min(a: int, b: int): (r: int) { if a <= b then a else b }

  predicate InGrid(h: Extent, w: Extent, p: Pos) { 0 <= p.x < w && 0 <= p.y < h }

  predicate ValidIndex(h: Extent, w: Extent, i: int) { 0 <= i < h * w }

  // ---------------------------------------------------------------------
  // Arithmetic helpers

  lemma MulAtLeast(k: int, n: Extent)
    requires k >= 1
    ensures k * n >= n
  {
  }

  lemma MulStrict(a: int, b: int, n: Extent)
    requires a < b
    ensures a * n + n <= b * n
  {
    assert b * n == a * n + (b - a) * n;
    MulAtLeast(b - a, n);
  }

  /** Euclidean division is unique: the quotient and remainder are determined. */
  lemma DivModUnique(a: int, n: Extent, q: int, r: int)
    requires 0 <= r < n && a == q * n + r
    ensures a / n == q && a % n == r
  {
    var q0, r0 := a / n, a % n;
    assert a == q0 * n + r0;
    if q < q0 {
      MulStrict(q, q0, n);
    } else if q0 < q {
      MulStrict(q0, q, n);
    }
  }

  // ---------------------------------------------------------------------
  // Directional distances

  /**
   Step counts from origin to destination going north, south, east and
   west. For each axis the forward and backward counts add up to the axis
   extent; for cells of the grid the southward count is the displacement
   reduced modulo the height (eastward: modulo the width).
   */
  function CalcDistances(h: Extent, w: Extent, origin: Pos, destination: Pos): (d: Distances)
    ensures d.north + d.south == h && d.east + d.west == w
    ensures destination.y == origin.y ==> d.south == 0 && d.north == h
    ensures destination.x == origin.x ==> d.east == 0 && d.west == w
  {
    var dy := destination.y - origin.y;
    var dx := destination.x - origin.x;
    Distances(
      if dy >= 0 then h - dy else -dy,
      if dy >= 0 then dy else h + dy,
      if dx >= 0 then dx else w + dx,
      if dx >= 0 then w - dx else -dx)
  }

  /**
   Between cells of the grid, the south and east counts lie in [0, extent)
   and are the displacements reduced modulo the extent; the north and west
   counts lie in (0, extent].
   */
  lemma CalcDistancesInGrid(h: Extent, w: Extent, origin: Pos, destination: Pos)
    requires InGrid(h, w, origin) && InGrid(h, w, destination)
    ensures var d := CalcDistances(h, w, origin, destination);
      && 0 <= d.south < h && 0 < d.north <= h
      && 0 <= d.east < w && 0 < d.west <= w
      && d.south == (destination.y - origin.y) % h
      && d.east == (destination.x - origin.x) % w
  {
    var dy := destination.y - origin.y;
    var dx := destination.x - origin.x;
    if dy >= 0 { DivModUnique(dy, h, 0, dy); } else { DivModUnique(dy, h, -1, h + dy); }
    if dx >= 0 { DivModUnique(dx, w, 0, dx); } else { DivModUnique(dx, w, -1, w + dx); }
  }

  // ---------------------------------------------------------------------
  // Index <-> cell

  function IndexToCell(w: Extent, i: int): (p: Pos)
    ensures 0 <= p.x < w && i == p.x + w * p.y
  {
    Pos(i % w, i / w)
  }

  function CellToIndex(w: Extent, p: Pos): (i: int)
  {
    p.x + w * p.y
  }

  /** Decoding an index of the grid gives a cell of the grid that encodes back to it. */
  lemma IndexToCellRoundTrip(h: Extent, w: Extent, i: int)
    requires ValidIndex(h, w, i)
    ensures InGrid(h, w, IndexToCell(w, i))
    ensures CellToIndex(w, IndexToCell(w, i)) == i
  {
    var q, r := i / w, i % w;
    assert i == q * w + r;
    if q >= h {
      MulStrict(h - 1, q, w);
    }
    if q < 0 {
      MulStrict(q, 0, w);
    }
  }

  /** Encoding a cell of the grid gives an index of the grid that decodes back to it. */
  lemma CellToIndexRoundTrip(h: Extent, w: Extent, p: Pos)
    requires InGrid(h, w, p)
    ensures ValidIndex(h, w, CellToIndex(w, p))
    ensures IndexToCell(w, CellToIndex(w, p)) == p
  {
    DivModUnique(CellToIndex(w, p), w, p.y, p.x);
    MulStrict(p.y, h, w);
  }

  /** Distinct cells of the grid have distinct indices. */
  lemma CellToIndexInjective(h: Extent, w: Extent, p: Pos, q: Pos)
    requires InGrid(h, w, p) && InGrid(h, w, q)
    requires CellToIndex(w, p) == CellToIndex(w, q)
    ensures p == q
  {
    CellToIndexRoundTrip(h, w, p);
    CellToIndexRoundTrip(h, w, q);
  }

  // ---------------------------------------------------------------------
  // Step distance

  /** Wrap-around distance between two coordinates on one axis of extent n. */
  function AxisDistance(n: Extent, u: int, v: int): (d: int)
  {
    var d := Abs(v - u);
    Min(d, n - d)
  }

  /** A wrap distance is never more than half the extent. */
  lemma AxisDistanceAtMostHalf(n: Extent, u: int, v: int)
    ensures AxisDistance(n, u, v) <= n / 2
  {
  }

  /** The number of steps between the cells of two indices (toroidal Manhattan distance). */
  function SimpleDistance(h: Extent, w: Extent, a: int, b: int): (d: int)
    ensures d <= w / 2 + h / 2
  {
    AxisDistanceAtMostHalf(w, a % w, b % w);
    AxisDistanceAtMostHalf(h, a / w, b / w);
    AxisDistance(w, a % w, b % w) + AxisDistance(h, a / w, b / w)
  }

  /** The step distance between two cells, on their coordinates. */
  function CellDistance(h: Extent, w: Extent, p: Pos, q: Pos): (d: int)
  {
    AxisDistance(w, p.x, q.x) + AxisDistance(h, p.y, q.y)
  }

  /** The step distance between the indices of two cells is their distance on coordinates. */
  lemma SimpleDistanceOfCells(h: Extent, w: Extent, p: Pos, q: Pos)
    requires InGrid(h, w, p) && InGrid(h, w, q)
    ensures SimpleDistance(h, w, CellToIndex(w, p), CellToIndex(w, q)) == CellDistance(h, w, p, q)
  {
    CellToIndexRoundTrip(h, w, p);
    CellToIndexRoundTrip(h, w, q);
  }

  /**
   The step distance is a metric on the indices of the grid: symmetric, zero
   exactly on equal indices, and never more than half of each extent per axis.
   */
  lemma SimpleDistanceMetric(h: Extent, w: Extent, a: int, b: int)
    requires ValidIndex(h, w, a) && ValidIndex(h, w, b)
    ensures SimpleDistance(h, w, a, b) == SimpleDistance(h, w, b, a)
    ensures SimpleDistance(h, w, a, b) == 0 <==> a == b
    ensures 0 <= SimpleDistance(h, w, a, b) <= w / 2 + h / 2
  {
    IndexToCellRoundTrip(h, w, a);
    IndexToCellRoundTrip(h, w, b);
    if SimpleDistance(h, w, a, b) == 0 {
      assert a % w == b % w && a / w == b / w;
      CellToIndexInjective(h, w, IndexToCell(w, a), IndexToCell(w, b));
    }
  }

  /**
   On cells of the grid, the step distance is the smaller of the north and
   south counts plus the smaller of the east and west counts.
   */
  lemma SimpleDistanceIsMinOfDirections(h: Extent, w: Extent, a: int, b: int)
    requires ValidIndex(h, w, a) && ValidIndex(h, w, b)
    ensures var d := CalcDistances(h, w, IndexToCell(w, a), IndexToCell(w, b));
      SimpleDistance(h, w, a, b) == Min(d.north, d.south) + Min(d.east, d.west)
  {
    IndexToCellRoundTrip(h, w, a);
    IndexToCellRoundTrip(h, w, b);
  }

  // ---------------------------------------------------------------------
  // Single steps

  /** The cell reached by one step in a direction, wrapped back onto the grid. */
  function Move(h: Extent, w: Extent, p: Pos, d: Direction): (q: Pos)
  {
    match d
    case North => Pos(p.x, (p.y - 1) % h)
    case South => Pos(p.x, (p.y + 1) % h)
    case East => Pos((p.x + 1) % w, p.y)
    case West => Pos((p.x - 1) % w, p.y)
    case Still => p
  }

  lemma StepUp(n: Extent, a: int)
    requires 0 <= a < n
    ensures (a + 1) % n == if a + 1 == n then 0 else a + 1
  {
    if a + 1 == n { DivModUnique(a + 1, n, 1, 0); } else { DivModUnique(a + 1, n, 0, a + 1); }
  }

  lemma StepDown(n: Extent, a: int)
    requires 0 <= a < n
    ensures (a - 1) % n == if a == 0 then n - 1 else a - 1
  {
    if a == 0 { DivModUnique(a - 1, n, -1, n - 1); } else { DivModUnique(a - 1, n, 0, a - 1); }
  }

  lemma MoveInGrid(h: Extent, w: Extent, p: Pos, d: Direction)
    requires InGrid(h, w, p)
    ensures InGrid(h, w, Move(h, w, p, d))
    ensures d == North ==> Move(h, w, p, d).y == if p.y == 0 then h - 1 else p.y - 1
    ensures d == South ==> Move(h, w, p, d).y == if p.y == h - 1 then 0 else p.y + 1
    ensures d == West ==> Move(h, w, p, d).x == if p.x == 0 then w - 1 else p.x - 1
    ensures d == East ==> Move(h, w, p, d).x == if p.x == w - 1 then 0 else p.x + 1
  {
    StepUp(h, p.y); StepDown(h, p.y); StepUp(w, p.x); StepDown(w, p.x);
  }

  /**
   The directions, among south, north, west and east in that order, whose
   count is positive and not larger than the count of the opposite direction.
   `Still` is appended only when all four counts are zero.
   */
  function ViableDirections(h: Extent, w: Extent, origin: Pos, destination: Pos): (ds: seq<Direction>)
    ensures Still !in ds
  {
    var d := CalcDistances(h, w, origin, destination);
    (if 0 < d.south <= d.north then [South] else [])
    + (if 0 < d.north <= d.south then [North] else [])
    + (if 0 < d.west <= d.east then [West] else [])
    + (if 0 < d.east <= d.west then [East] else [])
    + (if d.north == d.south == d.east == d.west == 0 then [Still] else [])
  }

  /**
   Moving one step forward along an axis of extent n, from coordinate a
   towards b, where s is the forward count: the wrap distance shrinks by one
   exactly when 0 < s <= n - s, and otherwise does not shrink.
   */
  lemma AxisStepForward(n: Extent, a: int, b: int, a': int)
    requires 0 <= a < n && 0 <= b < n
    requires a' == if a == n - 1 then 0 else a + 1
    ensures var s := (b - a) % n;
      && (0 < s <= n - s ==> AxisDistance(n, a', b) == AxisDistance(n, a, b) - 1)
      && (!(0 < s <= n - s) ==> AxisDistance(n, a', b) >= AxisDistance(n, a, b))
  {
    var s := (b - a) % n;
    if b >= a { DivModUnique(b - a, n, 0, b - a); } else { DivModUnique(b - a, n, -1, n + b - a); }
  }

  lemma AxisStepBackward(n: Extent, a: int, b: int, a': int)
    requires 0 <= a < n && 0 <= b < n
    requires a' == if a == 0 then n - 1 else a - 1
    ensures var s := (b - a) % n;
      && (0 < n - s <= s ==> AxisDistance(n, a', b) == AxisDistance(n, a, b) - 1)
      && (!(0 < n - s <= s) ==> AxisDistance(n, a', b) >= AxisDistance(n, a, b))
  {
    var s := (b - a) % n;
    if b >= a { DivModUnique(b - a, n, 0, b - a); } else { DivModUnique(b - a, n, -1, n + b - a); }
  }

  /**
   The viable directions are exactly the single steps that bring the origin
   closer to the destination, and each of them brings it exactly one step
   closer. The list is empty exactly when origin and destination coincide:
   `Still` is never produced, because the north count of a cell to itself
   is the full height.
   */
  lemma ViableDirectionsGetCloser(h: Extent, w: Extent, origin: Pos, destination: Pos, dir: Direction)
    requires InGrid(h, w, origin) && InGrid(h, w, destination)
    requires dir != Still
    ensures var steps := SimpleDistance(h, w, CellToIndex(w, origin), CellToIndex(w, destination));
      var next := Move(h, w, origin, dir);
      && (dir in ViableDirections(h, w, origin, destination) <==>
            SimpleDistance(h, w, CellToIndex(w, next), CellToIndex(w, destination)) < steps)
      && (dir in ViableDirections(h, w, origin, destination) ==>
            SimpleDistance(h, w, CellToIndex(w, next), CellToIndex(w, destination)) == steps - 1)
  {
    var next := Move(h, w, origin, dir);
    MoveInGrid(h, w, origin, dir);
    SimpleDistanceOfCells(h, w, origin, destination);
    SimpleDistanceOfCells(h, w, next, destination);
    ViableDirectionsMembers(h, w, origin, destination);
    StepChangesDistance(h, w, origin, destination, dir);
  }

  /** Whether the count in a direction is positive and not larger than the count in the opposite one. */
  predicate Approaches(d: Distances, dir: Direction)
  {
    match dir
    case South => 0 < d.south <= d.north
    case North => 0 < d.north <= d.south
    case West => 0 < d.west <= d.east
    case East => 0 < d.east <= d.west
    case Still => false
  }

  /**
   The effect of one step on the distance between cells: it shrinks by one
   exactly when the count in that direction is positive and not larger than
   the count in the opposite direction, and otherwise does not shrink.
   */
  lemma StepChangesDistance(h: Extent, w: Extent, origin: Pos, destination: Pos, dir: Direction)
    requires InGrid(h, w, origin) && InGrid(h, w, destination)
    requires dir != Still
    ensures var closer := Approaches(CalcDistances(h, w, origin, destination), dir);
      var steps := CellDistance(h, w, origin, destination);
      var after := CellDistance(h, w, Move(h, w, origin, dir), destination);
      (closer ==> after == steps - 1) && (!closer ==> after >= steps)
  {
    MoveInGrid(h, w, origin, dir);
    CalcDistancesInGrid(h, w, origin, destination);
    if dir == South || dir == North {
      VerticalStep(h, w, origin, destination, dir);
    } else {
      HorizontalStep(h, w, origin, destination, dir);
    }
  }

  lemma VerticalStep(h: Extent, w: Extent, origin: Pos, destination: Pos, dir: Direction)
    requires InGrid(h, w, origin) && InGrid(h, w, destination)
    requires dir == South || dir == North
    requires var d := CalcDistances(h, w, origin, destination);
      d.south == (destination.y - origin.y) % h && d.north == h - d.south
    requires var next := Move(h, w, origin, dir);
      next.x == origin.x
      && (dir == North ==> next.y == if origin.y == 0 then h - 1 else origin.y - 1)
      && (dir == South ==> next.y == if origin.y == h - 1 then 0 else origin.y + 1)
    ensures var closer := Approaches(CalcDistances(h, w, origin, destination), dir);
      var steps := CellDistance(h, w, origin, destination);
      var after := CellDistance(h, w, Move(h, w, origin, dir), destination);
      (closer ==> after == steps - 1) && (!closer ==> after >= steps)
  {
    var next := Move(h, w, origin, dir);
    if dir == South {
      AxisStepForward(h, origin.y, destination.y, next.y);
    } else {
      AxisStepBackward(h, origin.y, destination.y, next.y);
    }
  }

  lemma HorizontalStep(h: Extent, w: Extent, origin: Pos, destination: Pos, dir: Direction)
    requires InGrid(h, w, origin) && InGrid(h, w, destination)
    requires dir == East || dir == West
    requires var d := CalcDistances(h, w, origin, destination);
      d.east == (destination.x - origin.x) % w && d.west == w - d.east
    requires var next := Move(h, w, origin, dir);
      next.y == origin.y
      && (dir == West ==> next.x == if origin.x == 0 then w - 1 else origin.x - 1)
      && (dir == East ==> next.x == if origin.x == w - 1 then 0 else origin.x + 1)
    ensures var closer := Approaches(CalcDistances(h, w, origin, destination), dir);
      var steps := CellDistance(h, w, origin, destination);
      var after := CellDistance(h, w, Move(h, w, origin, dir), destination);
      (closer ==> after == steps - 1) && (!closer ==> after >= steps)
  {
    var next := Move(h, w, origin, dir);
    if dir == East {
      AxisStepForward(w, origin.x, destination.x, next.x);
    } else {
      AxisStepBackward(w, origin.x, destination.x, next.x);
    }
  }

  lemma ViableDirectionsMembers(h: Extent, w: Extent, origin: Pos, destination: Pos)
    ensures var d := CalcDistances(h, w, origin, destination);
      var ds := ViableDirections(h, w, origin, destination);
      && (South in ds <==> 0 < d.south <= d.north)
      && (North in ds <==> 0 < d.north <= d.south)
      && (West in ds <==> 0 < d.west <= d.east)
      && (East in ds <==> 0 < d.east <= d.west)
  {
    var d := CalcDistances(h, w, origin, destination);
    var s1 := if 0 < d.south <= d.north then [South] else [];
    var s2 := if 0 < d.north <= d.south then [North] else [];
    var s3 := if 0 < d.west <= d.east then [West] else [];
    var s4 := if 0 < d.east <= d.west then [East] else [];
    var s5 := if d.north == d.south == d.east == d.west == 0 then [Still] else [];
    assert ViableDirections(h, w, origin, destination) == s1 + s2 + s3 + s4 + s5;
    assert forall x :: x in s1 + s2 + s3 + s4 + s5 <==> x in s1 || x in s2 || x in s3 || x in s4 || x in s5;
  }

  lemma ViableDirectionsEmpty(h: Extent, w: Extent, origin: Pos, destination: Pos)
    requires InGrid(h, w, origin) && InGrid(h, w, destination)
    ensures ViableDirections(h, w, origin, destination) == [] <==> origin == destination
  {
    var d := CalcDistances(h, w, origin, destination);
    if origin != destination {
      if origin.y != destination.y {
        assert d.south != 0;
        assert South in ViableDirections(h, w, origin, destination)
            || North in ViableDirections(h, w, origin, destination);
      } else {
        assert d.east != 0;
        assert East in ViableDirections(h, w, origin, destination)
            || West in ViableDirections(h, w, origin, destination);
      }
    }
  }

  // ---------------------------------------------------------------------
  // Neighbourhoods

  /** The indices of the cells north, south, east and west of the cell of index i. */
  function Neighbours(h: Extent, w: Extent, i: int): (r: seq<int>)
    ensures |r| == 4
  {
    var x := i % w;
    var y := i / w;
    [x + w * ((y - 1) % h), x + w * ((y + 1) % h), ((x + 1) % w) + w * y, ((x - 1) % w) + w * y]
  }

  /** The direction of each of the four neighbours, in the order they are listed. */
  const NeighbourDirections: seq<Direction> := [North, South, East, West]

  /** Neighbour k of a cell of the grid is the cell one step away in direction k. */
  lemma NeighboursAreSteps(h: Extent, w: Extent, i: int)
    requires ValidIndex(h, w, i)
    ensures forall k :: 0 <= k < 4 ==>
      && ValidIndex(h, w, Neighbours(h, w, i)[k])
      && Neighbours(h, w, i)[k] == CellToIndex(w, Move(h, w, IndexToCell(w, i), NeighbourDirections[k]))
  {
    var p := IndexToCell(w, i);
    var steps := seq(4, k requires 0 <= k < 4 => Move(h, w, p, NeighbourDirections[k]));
    assert Neighbours(h, w, i) == seq(4, k requires 0 <= k < 4 => CellToIndex(w, steps[k]));
    IndexToCellRoundTrip(h, w, i);
    forall k | 0 <= k < 4 ensures ValidIndex(h, w, CellToIndex(w, steps[k])) {
      MoveInGrid(h, w, p, NeighbourDirections[k]);
      CellToIndexRoundTrip(h, w, steps[k]);
    }
  }

  /** The four neighbours of a cell of the grid are cells of the grid. */
  lemma NeighboursInGrid(h: Extent, w: Extent, i: int)
    requires ValidIndex(h, w, i)
    ensures forall k :: 0 <= k < 4 ==> ValidIndex(h, w, Neighbours(h, w, i)[k])
  {
    NeighboursAreSteps(h, w, i);
  }

  /** On a grid at least 2 by 2, every neighbour is exactly one step away. */
  lemma NeighboursAtDistanceOne(h: Extent, w: Extent, i: int)
    requires ValidIndex(h, w, i) && h >= 2 && w >= 2
    ensures forall k :: 0 <= k < 4 ==> SimpleDistance(h, w, i, Neighbours(h, w, i)[k]) == 1
  {
    var p := IndexToCell(w, i);
    IndexToCellRoundTrip(h, w, i);
    NeighboursAreSteps(h, w, i);
    forall k | 0 <= k < 4
      ensures SimpleDistance(h, w, i, Neighbours(h, w, i)[k]) == 1
    {
      var q := Move(h, w, p, NeighbourDirections[k]);
      MoveInGrid(h, w, p, NeighbourDirections[k]);
      SimpleDistanceOfCells(h, w, p, q);
    }
  }

  /** On a grid at least 3 by 3, the four neighbours are pairwise distinct. */
  lemma NeighboursDistinct(h: Extent, w: Extent, i: int)
    requires ValidIndex(h, w, i) && h >= 3 && w >= 3
    ensures forall k, l :: 0 <= k < l < 4 ==> Neighbours(h, w, i)[k] != Neighbours(h, w, i)[l]
  {
    var p := IndexToCell(w, i);
    IndexToCellRoundTrip(h, w, i);
    NeighboursAreSteps(h, w, i);
    forall k, l | 0 <= k < l < 4
      ensures Neighbours(h, w, i)[k] != Neighbours(h, w, i)[l]
    {
      var a := Move(h, w, p, NeighbourDirections[k]);
      var b := Move(h, w, p, NeighbourDirections[l]);
      MoveInGrid(h, w, p, NeighbourDirections[k]);
      MoveInGrid(h, w, p, NeighbourDirections[l]);
      CellToIndexRoundTrip(h, w, a);
      CellToIndexRoundTrip(h, w, b);
    }
  }

  /** The offsets (dx, dy) of one column of the diamond, dy running from lo to hi. */
  function DiamondColumn(dx: int, lo: int, hi: int): (offsets: seq<(int, int)>)
    decreases hi - lo + 1
  {
    if lo > hi then [] else [(dx, lo)] + DiamondColumn(dx, lo + 1, hi)
  }

  /** The columns of the radius-4 diamond from column dx up to column 4. */
  function DiamondFrom(dx: int): (offsets: seq<(int, int)>)
    decreases 5 - dx
  {
    if dx > 4 then [] else DiamondColumn(dx, -4 + Abs(dx), 4 - Abs(dx)) + DiamondFrom(dx + 1)
  }

  /** The radius of the bonus neighbourhood: `range(-4, 5)` in both coordinates. */
  const BonusRadius: int := 4

  /** The offsets of the bonus neighbourhood, in generation order: dx outer, dy inner. */
  function BonusOffsets(): (offsets: seq<(int, int)>)
  {
    DiamondFrom(-BonusRadius)
  }

  lemma {:induction false} DiamondColumnAt(dx: int, lo: int, hi: int)
    ensures |DiamondColumn(dx, lo, hi)| == if lo > hi then 0 else hi - lo + 1
    ensures forall k :: 0 <= k < |DiamondColumn(dx, lo, hi)| ==> DiamondColumn(dx, lo, hi)[k] == (dx, lo + k)
    decreases hi - lo + 1
  {
    if lo <= hi {
      DiamondColumnAt(dx, lo + 1, hi);
    }
  }

  lemma SquareStep(e: int)
    ensures e * e == (e - 1) * (e - 1) + 2 * e - 1
  {
  }

  /** Column d onwards holds (5 - d)^2 offsets for d >= 0, and 25 - 8d - d^2 for d < 0. */
  lemma {:induction false} DiamondFromSize(d: int)
    requires -4 <= d <= 5
    ensures |DiamondFrom(d)| == if d >= 0 then (5 - d) * (5 - d) else 25 - 8 * d - d * d
    decreases 5 - d
  {
    if d <= 4 {
      DiamondColumnAt(d, -4 + Abs(d), 4 - Abs(d));
      DiamondFromSize(d + 1);
      assert |DiamondFrom(d)| == 9 - 2 * Abs(d) + |DiamondFrom(d + 1)|;
      if d >= 0 {
        SquareStep(5 - d);
      } else if d == -1 {
        assert d * d == 1;
      } else {
        SquareStep(d + 1);
      }
    }
  }

  /** A column holds exactly the offsets (dx, dy) with lo <= dy <= hi. */
  lemma DiamondColumnMembers(dx: int, lo: int, hi: int)
    ensures forall o :: o in DiamondColumn(dx, lo, hi) <==> o.0 == dx && lo <= o.1 <= hi
  {
    var col := DiamondColumn(dx, lo, hi);
    DiamondColumnAt(dx, lo, hi);
    forall o: (int, int) | o.0 == dx && lo <= o.1 <= hi ensures o in col {
      assert col[o.1 - lo] == o;
    }
  }

  /** Column d onwards holds exactly the offsets with d <= dx <= 4 and |dx| + |dy| <= 4. */
  lemma {:induction false} DiamondFromMembers(d: int)
    ensures forall o :: o in DiamondFrom(d) <==> d <= o.0 <= 4 && Abs(o.0) + Abs(o.1) <= 4
    decreases 5 - d
  {
    if d <= 4 {
      DiamondColumnMembers(d, -4 + Abs(d), 4 - Abs(d));
      DiamondFromMembers(d + 1);
    }
  }

  /** No offset occurs twice from column d onwards. */
  lemma {:induction false} DiamondFromDistinct(d: int)
    ensures forall k, l :: 0 <= k < l < |DiamondFrom(d)| ==> DiamondFrom(d)[k] != DiamondFrom(d)[l]
    decreases 5 - d
  {
    if d <= 4 {
      var col := DiamondColumn(d, -4 + Abs(d), 4 - Abs(d));
      var rest := DiamondFrom(d + 1);
      DiamondColumnAt(d, -4 + Abs(d), 4 - Abs(d));
      DiamondFromDistinct(d + 1);
      DiamondFromMembers(d + 1);
      forall k, l | 0 <= k < l < |col + rest| ensures (col + rest)[k] != (col + rest)[l] {
        if l >= |col| && k < |col| {
          assert (col + rest)[l] in rest;
        }
      }
    }
  }

  /** The bonus neighbourhood has 41 offsets. */
  lemma BonusOffsetsSize()
    ensures |BonusOffsets()| == 41
  {
    DiamondFromSize(-BonusRadius);
  }

  /** The bonus offsets are exactly the (dx, dy) with |dx| + |dy| <= 4. */
  lemma BonusOffsetsMembers()
    ensures forall o :: o in BonusOffsets() <==> Abs(o.0) + Abs(o.1) <= 4
  {
    DiamondFromMembers(-BonusRadius);
  }

  /** No bonus offset is generated twice. */
  lemma BonusOffsetsDistinct()
    ensures forall k, l :: 0 <= k < l < |BonusOffsets()| ==> BonusOffsets()[k] != BonusOffsets()[l]
  {
    DiamondFromDistinct(-BonusRadius);
  }

  /** The indices of the cells of the radius-4 diamond around the cell of index i, with wrap-around. */
  function BonusNeighbours(h: Extent, w: Extent, i: int): (r: seq<int>)
    ensures |r| == |BonusOffsets()|
  {
    var x := i % w;
    var y := i / w;
    var offsets := BonusOffsets();
    seq(|offsets|, k requires 0 <= k < |offsets| => ((x + offsets[k].0) % w) + w * ((y + offsets[k].1) % h))
  }

  /** Wrapping a coordinate displaced by t moves it at most |t| along the axis. */
  lemma AxisDistanceOfOffset(n: Extent, a: int, t: int)
    requires 0 <= a < n
    ensures AxisDistance(n, a, (a + t) % n) <= Abs(t)
  {
    var b := (a + t) % n;
    var q := (a + t) / n;
    assert a + t == q * n + b;
    if q >= 1 {
      MulAtLeast(q, n);
    } else if q <= -1 {
      MulAtLeast(-q, n);
    }
  }

  /** Two coordinates congruent modulo n and less than n apart are equal. */
  lemma ModEqualClose(a: int, b: int, n: Extent)
    requires a % n == b % n && Abs(a - b) < n
    ensures a == b
  {
    var qa, qb := a / n, b / n;
    assert a == qa * n + a % n;
    assert b == qb * n + b % n;
    if qa < qb {
      MulStrict(qa, qb, n);
    } else if qb < qa {
      MulStrict(qb, qa, n);
    }
  }

  /** The cell of bonus neighbour k: the centre displaced by offset k, wrapped onto the grid. */
  function BonusCell(h: Extent, w: Extent, i: int, k: int): (q: Pos)
    requires 0 <= k < |BonusOffsets()|
  {
    var o := BonusOffsets()[k];
    Pos((i % w + o.0) % w, (i / w + o.1) % h)
  }

  lemma BonusNeighbourAt(h: Extent, w: Extent, i: int, k: int)
    requires 0 <= k < |BonusOffsets()|
    ensures InGrid(h, w, BonusCell(h, w, i, k))
    ensures BonusNeighbours(h, w, i)[k] == CellToIndex(w, BonusCell(h, w, i, k))
    ensures ValidIndex(h, w, BonusNeighbours(h, w, i)[k])
  {
    CellToIndexRoundTrip(h, w, BonusCell(h, w, i, k));
  }

  /** The bonus neighbourhood holds 41 indices of the grid, each at most 4 steps from the centre. */
  lemma BonusNeighboursNear(h: Extent, w: Extent, i: int)
    requires ValidIndex(h, w, i)
    ensures |BonusNeighbours(h, w, i)| == 41
    ensures forall k :: 0 <= k < 41 ==>
      ValidIndex(h, w, BonusNeighbours(h, w, i)[k]) && SimpleDistance(h, w, i, BonusNeighbours(h, w, i)[k]) <= 4
  {
    BonusOffsetsSize();
    forall k | 0 <= k < 41
      ensures ValidIndex(h, w, BonusNeighbours(h, w, i)[k])
      ensures SimpleDistance(h, w, i, BonusNeighbours(h, w, i)[k]) <= 4
    {
      BonusNeighbourNear(h, w, i, k);
    }
  }

  lemma BonusNeighbourNear(h: Extent, w: Extent, i: int, k: int)
    requires ValidIndex(h, w, i) && 0 <= k < |BonusOffsets()|
    ensures ValidIndex(h, w, BonusNeighbours(h, w, i)[k])
    ensures SimpleDistance(h, w, i, BonusNeighbours(h, w, i)[k]) <= 4
  {
    BonusOffsetsMembers();
    var p := IndexToCell(w, i);
    IndexToCellRoundTrip(h, w, i);
    var offsets := BonusOffsets();
    var q := BonusCell(h, w, i, k);
    assert offsets[k] in offsets;
    BonusNeighbourAt(h, w, i, k);
    SimpleDistanceOfCells(h, w, p, q);
    AxisDistanceOfOffset(w, p.x, offsets[k].0);
    AxisDistanceOfOffset(h, p.y, offsets[k].1);
  }

  /** On a grid at least 9 by 9 the 41 bonus neighbours are pairwise distinct. */
  lemma BonusNeighboursDistinct(h: Extent, w: Extent, i: int)
    requires ValidIndex(h, w, i) && h >= 9 && w >= 9
    ensures forall k, l :: 0 <= k < l < |BonusNeighbours(h, w, i)| ==> BonusNeighbours(h, w, i)[k] != BonusNeighbours(h, w, i)[l]
  {
    forall k, l | 0 <= k < l < |BonusNeighbours(h, w, i)|
      ensures BonusNeighbours(h, w, i)[k] != BonusNeighbours(h, w, i)[l]
    {
      BonusNeighbourPairDistinct(h, w, i, k, l);
    }
  }

  lemma BonusNeighbourPairDistinct(h: Extent, w: Extent, i: int, k: int, l: int)
    requires h >= 9 && w >= 9 && 0 <= k < l < |BonusOffsets()|
    ensures BonusNeighbours(h, w, i)[k] != BonusNeighbours(h, w, i)[l]
  {
    BonusOffsetsMembers();
    BonusOffsetsDistinct();
    var offsets := BonusOffsets();
    assert offsets[k] in offsets && offsets[l] in offsets;
    BonusNeighbourAt(h, w, i, k);
    BonusNeighbourAt(h, w, i, l);
    if BonusNeighbours(h, w, i)[k] == BonusNeighbours(h, w, i)[l] {
      CellToIndexInjective(h, w, BonusCell(h, w, i, k), BonusCell(h, w, i, l));
      ModEqualClose(i % w + offsets[k].0, i % w + offsets[l].0, w);
      ModEqualClose(i / w + offsets[k].1, i / w + offsets[l].1, h);
    }
  }
}
