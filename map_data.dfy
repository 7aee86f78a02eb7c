/**
 The integer bookkeeping of the map analysis: the static adjacency arrays
 of the map graph and their process-wide cache, the set of origins for the
 shortest-path computation, the per-cell counter of enemy influence, and
 the threat and movement rules for a single ship.

 Edge weights, the shortest-path solver and the floating-point threat
 factor 3 / (count + 3) are not part of this module.
 */
module MapData {
  import opened Grid

  datatype Option<T> = None | Some(value: T)

  /** The structural part of the map graph: edge k runs from row[k] to col[k]. */
  datatype EdgeData = EdgeData(row: seq<int>, col: seq<int>)

  predicate NoDuplicates(s: seq<int>)
  {
    forall a, b :: 0 <= a < b < |s| ==> s[a] != s[b]
  }

  /** The concatenation of a list of lists, in order. */
  function Flatten(ss: seq<seq<int>>): (r: seq<int>)
  {
    if ss == [] then [] else ss[0] + Flatten(ss[1..])
  }

  lemma {:induction false} FlattenMembers(ss: seq<seq<int>>, x: int)
    ensures x in Flatten(ss) <==> exists i :: 0 <= i < |ss| && x in ss[i]
  {
    if ss != [] {
      FlattenMembers(ss[1..], x);
      if x in Flatten(ss[1..]) {
        var i :| 0 <= i < |ss[1..]| && x in ss[1..][i];
        assert x in ss[i + 1];
      }
      if exists i :: 0 <= i < |ss| && x in ss[i] {
        var i :| 0 <= i < |ss| && x in ss[i];
        if i > 0 { assert x in ss[1..][i - 1]; }
      }
    }
  }

  /** Flattening lists of four elements each: element j of list i lands at 4i + j. */
  lemma {:induction false} FlattenQuads(ss: seq<seq<int>>)
    requires forall i :: 0 <= i < |ss| ==> |ss[i]| == 4
    ensures |Flatten(ss)| == 4 * |ss|
    ensures forall i, j :: 0 <= i < |ss| && 0 <= j < 4 ==> Flatten(ss)[4 * i + j] == ss[i][j]
  {
    if ss != [] {
      FlattenQuads(ss[1..]);
      forall i, j | 0 <= i < |ss| && 0 <= j < 4 ensures Flatten(ss)[4 * i + j] == ss[i][j] {
        if i > 0 {
          assert Flatten(ss)[4 * i + j] == Flatten(ss[1..])[4 * (i - 1) + j];
        }
      }
    }
  }

  // ---------------------------------------------------------------------
  // Static adjacency

  /** Every node index 0 .. m-1 repeated four times, in order (`np.repeat(np.arange(m), 4)`). */
  function RepeatedNodes(m: nat): (r: seq<int>)
  {
    seq(4 * m, k => k / 4)
  }

  /** The neighbour lists of all cells of the grid, in index order. */
  function AllNeighbours(h: Extent, w: Extent): (lists: seq<seq<int>>)
  {
    seq(h * w, i => Neighbours(h, w, i))
  }

  /**
   The adjacency arrays of the map graph: the row array repeats every node
   four times, the column array lists the four neighbours of every node in
   node order.
   */
  function EdgeArrays(h: Extent, w: Extent): (e: EdgeData)
  {
    EdgeData(RepeatedNodes(h * w), Flatten(AllNeighbours(h, w)))
  }

  /** The positions in the row array at which node i is the source. */
  function EdgesFrom(e: EdgeData, i: int): (ks: set<int>)
  {
    set k | 0 <= k < |e.row| && e.row[k] == i
  }

  /** Entry k of the repeated node list is the node whose block of four holds position k. */
  lemma RepeatedNodesShape(m: nat)
    ensures |RepeatedNodes(m)| == 4 * m
    ensures forall k :: 0 <= k < 4 * m ==>
      0 <= RepeatedNodes(m)[k] < m && 4 * RepeatedNodes(m)[k] <= k < 4 * RepeatedNodes(m)[k] + 4
  {
  }

  lemma AllNeighboursAt(h: Extent, w: Extent)
    ensures |AllNeighbours(h, w)| == h * w
    ensures forall i :: 0 <= i < h * w ==> |AllNeighbours(h, w)[i]| == 4 && AllNeighbours(h, w)[i] == Neighbours(h, w, i)
  {
  }

  /**
   Both arrays have 4m entries, and entries 4i .. 4i+3 pair node i with its
   four neighbours in the order north, south, east, west.
   */
  lemma EdgeArraysShape(h: Extent, w: Extent)
    ensures var e := EdgeArrays(h, w);
      && |e.row| == 4 * (h * w) && |e.col| == 4 * (h * w)
      && forall i, j :: 0 <= i < h * w && 0 <= j < 4 ==>
           e.row[4 * i + j] == i && e.col[4 * i + j] == Neighbours(h, w, i)[j]
  {
    RepeatedNodesShape(h * w);
    AllNeighboursAt(h, w);
    var lists := AllNeighbours(h, w);
    FlattenQuads(lists);
    assert forall i, j :: 0 <= i < h * w && 0 <= j < 4 ==> Flatten(lists)[4 * i + j] == lists[i][j];
  }

  /**
   The map graph is 4-regular in its sources: every node of the grid is the
   source of exactly four edges, at positions 4i .. 4i+3.
   */
  lemma EdgeArraysOutDegree(h: Extent, w: Extent)
    ensures forall i :: 0 <= i < h * w ==> EdgesFrom(EdgeArrays(h, w), i) == {4 * i, 4 * i + 1, 4 * i + 2, 4 * i + 3}
    ensures forall i :: 0 <= i < h * w ==> |EdgesFrom(EdgeArrays(h, w), i)| == 4
  {
    var row := RepeatedNodes(h * w);
    RepeatedNodesShape(h * w);
    assert EdgeArrays(h, w).row == row;
    forall i | 0 <= i < h * w ensures EdgesFrom(EdgeArrays(h, w), i) == {4 * i, 4 * i + 1, 4 * i + 2, 4 * i + 3} {
      assert row[4 * i] == i && row[4 * i + 1] == i && row[4 * i + 2] == i && row[4 * i + 3] == i;
    }
  }

  /** Every edge joins two nodes of the grid. */
  lemma EdgeArraysInGrid(h: Extent, w: Extent)
    ensures var e := EdgeArrays(h, w);
      && |e.row| == |e.col|
      && forall k :: 0 <= k < |e.col| ==> ValidIndex(h, w, e.row[k]) && ValidIndex(h, w, e.col[k])
  {
    var e := EdgeArrays(h, w);
    RepeatedNodesShape(h * w);
    EdgeArraysShape(h, w);
    forall k | 0 <= k < |e.col| ensures ValidIndex(h, w, e.col[k]) {
      var i, j := k / 4, k % 4;
      assert k == 4 * i + j;
      assert e.col[k] == Neighbours(h, w, i)[j];
      NeighboursInGrid(h, w, i);
    }
  }

  /**
   The process-wide cache of the adjacency arrays. It is written once, on
   first use; later reads return what was stored, whatever grid it was
   built for.
   */
  class EdgeDataCache {
    var edgeData: Option<EdgeData>

    constructor ()
      ensures edgeData == None
    {
      edgeData := None;
    }

    /** Builds the adjacency arrays for an h-by-w grid and stores them. */
    method InitializeEdgeData(h: Extent, w: Extent)
      modifies this
      ensures edgeData == Some(EdgeArrays(h, w))
    {
      edgeData := Some(EdgeArrays(h, w));
    }

    /** The structural step of building the graph: initialise the cache if empty, then read it. */
    method GraphStructure(h: Extent, w: Extent) returns (e: EdgeData)
      modifies this
      ensures old(edgeData).Some? ==> edgeData == old(edgeData) && e == old(edgeData).value
      ensures old(edgeData).None? ==> edgeData == Some(EdgeArrays(h, w)) && e == EdgeArrays(h, w)
    {
      if edgeData.None? {
        InitializeEdgeData(h, w);
      }
      e := edgeData.value;
    }
  }

  // ---------------------------------------------------------------------
  // Origins of the shortest-path computation

  /** The elements of s, each once, in order of first occurrence. */
  function Dedup(s: seq<int>): (r: seq<int>)
    ensures NoDuplicates(r)
    ensures forall x :: x in r <==> x in s
    ensures |r| <= |s|
  {
    if s == [] then []
    else
      var r := Dedup(s[..|s| - 1]);
      if s[|s| - 1] in r then r else r + [s[|s| - 1]]
  }

  /** The neighbour lists of the given cells, concatenated in order. */
  function NeighbourIndices(h: Extent, w: Extent, cells: seq<int>): (r: seq<int>)
  {
    Flatten(seq(|cells|, k requires 0 <= k < |cells| => Neighbours(h, w, cells[k])))
  }

  /**
   The origins for the shortest-path computation: the cells of the own
   ships and all their neighbours, without duplicates. The source turns a
   set into a list, whose order is not specified; this model lists cells in
   order of first occurrence.
   */
  function ShortestPathIndices(h: Extent, w: Extent, shipCells: seq<int>): (r: seq<int>)
    requires forall k :: 0 <= k < |shipCells| ==> ValidIndex(h, w, shipCells[k])
    ensures NoDuplicates(r)
    ensures forall x :: x in r <==>
      x in shipCells || exists k :: 0 <= k < |shipCells| && x in Neighbours(h, w, shipCells[k])
    ensures forall x :: x in r ==> ValidIndex(h, w, x)
    ensures |r| <= 5 * |shipCells|
  {
    NeighbourIndicesFacts(h, w, shipCells);
    Dedup(shipCells + NeighbourIndices(h, w, shipCells))
  }

  /** The neighbour list of n cells has 4n entries: the neighbours of those cells, all in the grid. */
  lemma NeighbourIndicesFacts(h: Extent, w: Extent, cells: seq<int>)
    requires forall k :: 0 <= k < |cells| ==> ValidIndex(h, w, cells[k])
    ensures |NeighbourIndices(h, w, cells)| == 4 * |cells|
    ensures forall x :: x in NeighbourIndices(h, w, cells) <==>
      exists k :: 0 <= k < |cells| && x in Neighbours(h, w, cells[k])
    ensures forall x :: x in NeighbourIndices(h, w, cells) ==> ValidIndex(h, w, x)
  {
    var lists := seq(|cells|, k requires 0 <= k < |cells| => Neighbours(h, w, cells[k]));
    FlattenQuads(lists);
    forall x ensures x in Flatten(lists) <==> exists k :: 0 <= k < |cells| && x in Neighbours(h, w, cells[k]) {
      FlattenMembers(lists, x);
      if exists k :: 0 <= k < |cells| && x in Neighbours(h, w, cells[k]) {
        var k :| 0 <= k < |cells| && x in Neighbours(h, w, cells[k]);
        assert x in lists[k];
      }
    }
    forall x | x in Flatten(lists) ensures ValidIndex(h, w, x) {
      var k :| 0 <= k < |cells| && x in Neighbours(h, w, cells[k]);
      NeighboursInGrid(h, w, cells[k]);
    }
  }

  // ---------------------------------------------------------------------
  // Counting enemy influence

  /** The number of occurrences of every value of s (a `Counter`). */
  function Counter(s: seq<int>): (c: map<int, nat>)
    ensures forall k :: k in c <==> k in s
    ensures forall k :: k in c ==> c[k] == multiset(s)[k]
  {
    map k | k in s :: multiset(s)[k]
  }

  /**
   Writes a counter into a fresh array of m zeros: entry k holds the count
   of k when k was counted, and stays 0 otherwise.
   */
  method StoreCounts(m: nat, temp: map<int, nat>) returns (counts: array<int>)
    requires forall k :: k in temp ==> 0 <= k < m
    ensures fresh(counts) && counts.Length == m
    ensures forall k :: 0 <= k < m ==> counts[k] == if k in temp then temp[k] else 0
  {
    counts := new int[m](_ => 0);
    var keys := temp.Keys;
    while keys != {}
      invariant keys <= temp.Keys
      invariant forall k :: 0 <= k < m ==> counts[k] == (if k in temp && k !in keys then temp[k] else 0)
      decreases |keys|
    {
      assert exists x :: x in keys by {
        if forall x :: x !in keys { assert false; }
      }
      var key :| key in keys;
      counts[key] := temp[key];
      keys := keys - {key};
    }
  }

  /**
   The per-cell occurrence counter: entry k of the new array is the number
   of times k occurs in the index lists produced for the enemy ships, and 0
   for cells that occur in none of them.
   */
  method IndexCount(m: nat, outputs: seq<seq<int>>) returns (counts: array<int>)
    requires forall k :: k in Flatten(outputs) ==> 0 <= k < m
    ensures fresh(counts) && counts.Length == m
    ensures forall k :: 0 <= k < m ==> counts[k] == multiset(Flatten(outputs))[k]
  {
    var produced := Flatten(outputs);
    var temp := Counter(produced);
    counts := StoreCounts(m, temp);
  }

  /** For every cell, the number of enemy ships whose bonus neighbourhood contains it (with multiplicity). */
  method EnemiesInBonusRange(h: Extent, w: Extent, enemyCells: seq<int>) returns (counts: array<int>)
    requires forall k :: 0 <= k < |enemyCells| ==> ValidIndex(h, w, enemyCells[k])
    ensures fresh(counts) && counts.Length == h * w
    ensures forall c :: 0 <= c < h * w ==>
      counts[c] == multiset(Flatten(seq(|enemyCells|, k requires 0 <= k < |enemyCells| => BonusNeighbours(h, w, enemyCells[k]))))[c]
  {
    var outputs := seq(|enemyCells|, k requires 0 <= k < |enemyCells| => BonusNeighbours(h, w, enemyCells[k]));
    forall x | x in Flatten(outputs) ensures 0 <= x < h * w {
      FlattenMembers(outputs, x);
      var k :| 0 <= k < |outputs| && x in outputs[k];
      BonusNeighboursNear(h, w, enemyCells[k]);
    }
    counts := IndexCount(h * w, outputs);
  }

  // ---------------------------------------------------------------------
  // Threat and movement of a single ship

  /** Integer ceiling of n / d. */
  function CeilDiv(n: int, d: int): (q: int)
    requires d >= 1
    ensures (q - 1) * d < n <= q * d
  {
    var t := (-n) / d;
    assert -n == t * d + (-n) % d;
    assert (-t) * d == -(t * d);
    -t
  }

  /** The ceiling of n / d grows with n. */
  lemma CeilDivMonotone(n1: int, n2: int, d: int)
    requires d >= 1 && n1 <= n2
    ensures CeilDiv(n1, d) <= CeilDiv(n2, d)
  {
    var q1, q2 := CeilDiv(n1, d), CeilDiv(n2, d);
    if q2 < q1 {
      MulStrict(q2, q1, d);
    }
  }

  /**
   How many times an enemy ship counts on its own cell:
   ceil(4 * (1 - (cargo / max)^2)), written exactly as
   ceil(4 * (max^2 - cargo^2) / max^2).
   */
  function ThreatFactor(cargo: int, maxHalite: int): (f: int)
    requires maxHalite >= 1
  {
    CeilDiv(4 * (maxHalite * maxHalite - cargo * cargo), maxHalite * maxHalite)
  }

  /** The ceiling of n / d for 0 <= n <= 4d lies in [0, 4]; it is 0 only for n = 0 and 4 for n = 4d. */
  lemma CeilDivQuarters(n: int, d: int)
    requires d >= 1 && 0 <= n <= 4 * d
    ensures 0 <= CeilDiv(n, d) <= 4
    ensures n == 0 ==> CeilDiv(n, d) == 0
    ensures n == 4 * d ==> CeilDiv(n, d) == 4
    ensures n > 0 ==> CeilDiv(n, d) >= 1
  {
    CeilDivMonotone(n, 4 * d, d);
    CeilDivMonotone(0, n, d);
    assert CeilDiv(4 * d, d) == 4 by { DivModUnique(-4 * d, d, -4, 0); }
    assert CeilDiv(0, d) == 0 by { DivModUnique(0, d, 0, 0); }
    if n > 0 {
      assert CeilDiv(1, d) >= 1;
      CeilDivMonotone(1, n, d);
    }
  }

  /**
   For cargo between 0 and the capacity the factor lies in [0, 4]: 4 for an
   empty ship, 0 for a full one, and positive for any ship that is not full.
   */
  lemma ThreatFactorRange(cargo: int, maxHalite: int)
    requires maxHalite >= 1 && 0 <= cargo <= maxHalite
    ensures 0 <= ThreatFactor(cargo, maxHalite) <= 4
    ensures cargo == 0 ==> ThreatFactor(cargo, maxHalite) == 4
    ensures cargo == maxHalite ==> ThreatFactor(cargo, maxHalite) == 0
    ensures cargo < maxHalite ==> ThreatFactor(cargo, maxHalite) >= 1
  {
    var d := maxHalite * maxHalite;
    var c2 := cargo * cargo;
    MulAtLeast(maxHalite, maxHalite);
    if cargo < maxHalite {
      if cargo > 0 { MulStrict(cargo, maxHalite, cargo); }
      MulStrict(cargo, maxHalite, maxHalite);
      assert c2 < d;
    } else {
      assert c2 == d;
    }
    CeilDivQuarters(4 * (d - c2), d);
  }

  /** A ship with more cargo never has a larger threat factor. */
  lemma ThreatFactorMonotone(c1: int, c2: int, maxHalite: int)
    requires maxHalite >= 1 && 0 <= c1 <= c2
    ensures ThreatFactor(c2, maxHalite) <= ThreatFactor(c1, maxHalite)
  {
    assert c1 * c1 <= c1 * c2 <= c2 * c2;
    CeilDivMonotone(4 * (maxHalite * maxHalite - c2 * c2), 4 * (maxHalite * maxHalite - c1 * c1), maxHalite * maxHalite);
  }

  /** n copies of x (none when n is not positive, as with `range(n)`). */
  function Repeat(x: int, n: int): (r: seq<int>)
    ensures |r| == if n > 0 then n else 0
    ensures forall k :: 0 <= k < |r| ==> r[k] == x
    decreases n
  {
    if n <= 0 then [] else [x] + Repeat(x, n - 1)
  }

  /** The cells threatened by an enemy ship: its own cell, factor times, then its four neighbours. */
  function Threat(h: Extent, w: Extent, cell: int, cargo: int, maxHalite: int): (r: seq<int>)
    requires maxHalite >= 1
  {
    Repeat(cell, ThreatFactor(cargo, maxHalite)) + Neighbours(h, w, cell)
  }

  /**
   On a grid at least 3 by 3, an enemy ship contributes exactly its threat
   factor to its own cell and exactly 1 to each of its four neighbours, and
   nothing outside the grid.
   */
  lemma ThreatMultiplicity(h: Extent, w: Extent, cell: int, cargo: int, maxHalite: int)
    requires ValidIndex(h, w, cell) && h >= 3 && w >= 3
    requires maxHalite >= 1 && 0 <= cargo <= maxHalite
    ensures |Threat(h, w, cell, cargo, maxHalite)| == ThreatFactor(cargo, maxHalite) + 4
    ensures forall x :: x in Threat(h, w, cell, cargo, maxHalite) ==> ValidIndex(h, w, x)
    ensures multiset(Threat(h, w, cell, cargo, maxHalite))[cell] == ThreatFactor(cargo, maxHalite)
    ensures forall k :: 0 <= k < 4 ==> multiset(Threat(h, w, cell, cargo, maxHalite))[Neighbours(h, w, cell)[k]] == 1
  {
    var f := ThreatFactor(cargo, maxHalite);
    var ns := Neighbours(h, w, cell);
    var copies := Repeat(cell, f);
    ThreatFactorRange(cargo, maxHalite);
    NeighboursInGrid(h, w, cell);
    NeighboursAtDistanceOne(h, w, cell);
    NeighboursDistinct(h, w, cell);
    forall k | 0 <= k < 4 ensures ns[k] != cell {
      SimpleDistanceMetric(h, w, cell, ns[k]);
    }
    assert copies == seq(f, _ => cell);
    RepeatMultiset(cell, f);
    assert ns == [ns[0], ns[1], ns[2], ns[3]];
    assert multiset(ns) == multiset{ns[0], ns[1], ns[2], ns[3]};
    assert Threat(h, w, cell, cargo, maxHalite) == copies + ns;
  }

  /**
   The integer part of the global threat: for every cell, how often it
   occurs in the threat lists of the enemy ships, each given by its cell and
   its cargo.
   */
  method EnemyThreatCounts(h: Extent, w: Extent, enemies: seq<(int, int)>, maxHalite: int) returns (counts: array<int>)
    requires maxHalite >= 1
    requires forall k :: 0 <= k < |enemies| ==> ValidIndex(h, w, enemies[k].0)
    ensures fresh(counts) && counts.Length == h * w
    ensures forall c :: 0 <= c < h * w ==>
      counts[c] == multiset(Flatten(seq(|enemies|, k requires 0 <= k < |enemies| =>
        Threat(h, w, enemies[k].0, enemies[k].1, maxHalite))))[c]
  {
    var outputs := seq(|enemies|, k requires 0 <= k < |enemies| => Threat(h, w, enemies[k].0, enemies[k].1, maxHalite));
    forall x | x in Flatten(outputs) ensures 0 <= x < h * w {
      FlattenMembers(outputs, x);
      var k :| 0 <= k < |outputs| && x in outputs[k];
      NeighboursInGrid(h, w, enemies[k].0);
      assert outputs[k] == Repeat(enemies[k].0, ThreatFactor(enemies[k].1, maxHalite)) + Neighbours(h, w, enemies[k].0);
    }
    counts := IndexCount(h * w, outputs);
  }

  lemma {:induction false} RepeatMultiset(x: int, n: int)
    ensures forall y :: multiset(Repeat(x, n))[y] == if y == x && n > 0 then n else 0
    decreases n
  {
    if n > 0 {
      RepeatMultiset(x, n - 1);
      assert Repeat(x, n) == [x] + Repeat(x, n - 1);
    }
  }

  /**
   A ship can leave its cell when its cargo covers the move cost,
   ceil(cell halite / 10); exactly when cell halite <= 10 * cargo.
   */
  function CanMove(cellHalite: int, cargo: int): (b: bool)
    ensures b <==> cellHalite <= 10 * cargo
    ensures b <==> (cellHalite as real) / 10.0 <= cargo as real
  {
    var necessary := CeilDiv(cellHalite, 10);
    necessary <= cargo
  }
}
