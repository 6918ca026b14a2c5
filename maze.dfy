/** Maze generation by the recursive backtracker (a depth-first spanning-tree
    carver) over a width-by-height grid of cells, each cell holding a 4-bit
    passage mask. Cells are indexed [y, x], row first, as in the Rust grid
    `[[Cell; MAZE_WIDTH]; MAZE_HEIGHT]`. */
module Maze {

  newtype u64 = x: int | 0 <= x < 0x1_0000_0000_0000_0000

  const MAZE_WIDTH: nat := 20
  const MAZE_HEIGHT: nat := 20

  const NORTH: bv8 := 0x01
  const SOUTH: bv8 := 0x02
  const EAST: bv8 := 0x04
  const WEST: bv8 := 0x08

  /** One cell: bit d of `passages` set means the wall in direction d is open. */
  datatype Cell = Cell(passages: bv8) {
    predicate IsOpen(direction: bv8)
      ensures IsOpen(direction) ==> direction != 0 && passages != 0
    {
      passages & direction != 0
    }
  }

  predicate IsDirection(d: bv8) {
    d == NORTH || d == SOUTH || d == EAST || d == WEST
  }

  function Opposite(d: bv8): (o: bv8)
    requires IsDirection(d)
    ensures IsDirection(o) && o != d
    ensures d == NORTH <==> o == SOUTH
    ensures d == SOUTH <==> o == NORTH
    ensures d == EAST <==> o == WEST
    ensures d == WEST <==> o == EAST
  {
    if d == NORTH then SOUTH
    else if d == SOUTH then NORTH
    else if d == EAST then WEST
    else EAST
  }

  /** Opening a direction bit in a mask: the new mask is open in exactly the
      old open directions plus the new one, and keeps within the four bits. */
  lemma OpenAfterCarve(c: Cell, d: bv8, e: bv8)
    requires IsDirection(d) && IsDirection(e)
    ensures Cell(c.passages | d).IsOpen(e) <==> c.IsOpen(e) || d == e
    ensures c.passages & 0xF0 == 0 ==> (c.passages | d) & 0xF0 == 0
  {
  }

  /** The four direction bits are pairwise distinct single bits, and each is
      the opposite of its opposite. */
  lemma DirectionBits(d: bv8, e: bv8)
    requires IsDirection(d) && IsDirection(e)
    ensures Cell(d).IsOpen(e) <==> d == e
    ensures Opposite(Opposite(d)) == d
  {
  }

  // ---------------------------------------------------------------------------
  // The linear congruential generator

  const MULTIPLIER: u64 := 6364136223846793005
  const INCREMENT: u64 := 1442695040888963407
  const TWO_POW_64: int := 0x1_0000_0000_0000_0000
  const TWO_POW_33: int := 0x2_0000_0000

  function WrappingMul(a: u64, b: u64): u64 {
    ((a as int * b as int) % TWO_POW_64) as u64
  }

  function WrappingAdd(a: u64, b: u64): u64 {
    ((a as int + b as int) % TWO_POW_64) as u64
  }

  /** One step of the generator: a wrapping multiply, then a wrapping add,
      which together compute the affine map modulo 2^64. */
  function LcgNext(s: u64): (r: u64)
    ensures r as int == (s as int * 6364136223846793005 + 1442695040888963407) % TWO_POW_64
  {
    ModAddLeft(s as int * MULTIPLIER as int, INCREMENT as int, TWO_POW_64);
    WrappingAdd(WrappingMul(s, MULTIPLIER), INCREMENT)
  }

  /** Euclidean remainder is determined by any decomposition x == t * n + m
      with 0 <= m < n. */
  lemma ModUnique(x: int, t: int, n: int, m: int)
    requires n > 0 && 0 <= m < n && x == t * n + m
    ensures x % n == m
  {
    var d := t - x / n;
    assert x == (x / n) * n + x % n;
    assert d * n == x % n - m;
  }

  lemma ModAddLeft(a: int, b: int, n: int)
    requires n > 0
    ensures (a % n + b) % n == (a + b) % n
  {
    var q, k := a / n, (a + b) / n;
    assert a == q * n + a % n;
    assert a + b == k * n + (a + b) % n;
    assert a % n + b == (k - q) * n + (a + b) % n;
    ModUnique(a % n + b, k - q, n, (a + b) % n);
  }

  /** The index drawn from a state: its upper 31 bits, reduced modulo max. */
  function IndexFromState(s: u64, max: nat): (r: nat)
    requires max > 0
    ensures r < max
  {
    (s as int / TWO_POW_33) % max
  }

  class Rng {
    var state: u64

    constructor New(seed: u64)
      ensures state == seed
    {
      state := seed;
    }

    /** Advances the state once and returns an index in [0, max). */
    method NextUsize(max: nat) returns (r: nat)
      requires max > 0
      modifies this
      ensures state == LcgNext(old(state))
      ensures r == IndexFromState(state, max) && r < max
    {
      state := LcgNext(state);
      r := IndexFromState(state, max);
    }
  }

  // ---------------------------------------------------------------------------
  // Neighbours

  datatype Pos = Pos(x: nat, y: nat)

  /** A candidate step from the current cell: target coordinates, the
      direction bit toward it and the bit pointing back. */
  datatype Neighbor = Neighbor(nx: nat, ny: nat, dir: bv8, opposite: bv8)

  /** (nx, ny) is the cell one step from (x, y) in direction d. */
  predicate Adjacent(x: nat, y: nat, nx: nat, ny: nat, d: bv8) {
    || (d == NORTH && nx == x && ny + 1 == y)
    || (d == SOUTH && nx == x && ny == y + 1)
    || (d == EAST && nx == x + 1 && ny == y)
    || (d == WEST && nx + 1 == x && ny == y)
  }

  ghost predicate IsUnvisitedNeighbor(x: nat, y: nat, n: Neighbor, visited: array2<bool>)
    reads visited
  {
    && n.ny < visited.Length0 && n.nx < visited.Length1
    && !visited[n.ny, n.nx]
    && IsDirection(n.dir) && n.opposite == Opposite(n.dir)
    && Adjacent(x, y, n.nx, n.ny, n.dir)
  }

  /** The candidate list the generator builds for (x, y): each in-grid,
      unvisited neighbour, tried in the order N, S, E, W. */
  function Candidates(x: nat, y: nat, visited: array2<bool>): seq<Neighbor>
    reads visited
    requires y < visited.Length0 && x < visited.Length1
  {
    (if y > 0 && !visited[y - 1, x] then [Neighbor(x, y - 1, NORTH, SOUTH)] else [])
    + (if y + 1 < visited.Length0 && !visited[y + 1, x] then [Neighbor(x, y + 1, SOUTH, NORTH)] else [])
    + (if x + 1 < visited.Length1 && !visited[y, x + 1] then [Neighbor(x + 1, y, EAST, WEST)] else [])
    + (if x > 0 && !visited[y, x - 1] then [Neighbor(x - 1, y, WEST, EAST)] else [])
  }

  /** The candidates are exactly the unvisited in-grid neighbours of (x, y),
      each with its direction and the bit pointing back, in the increasing
      order of the direction bits. */
  lemma CandidatesSpec(x: nat, y: nat, visited: array2<bool>)
    requires y < visited.Length0 && x < visited.Length1
    ensures var cs := Candidates(x, y, visited);
            && (forall n :: n in cs ==> IsUnvisitedNeighbor(x, y, n, visited))
            && (y > 0 ==> (Neighbor(x, y - 1, NORTH, SOUTH) in cs <==> !visited[y - 1, x]))
            && (y + 1 < visited.Length0 ==> (Neighbor(x, y + 1, SOUTH, NORTH) in cs <==> !visited[y + 1, x]))
            && (x + 1 < visited.Length1 ==> (Neighbor(x + 1, y, EAST, WEST) in cs <==> !visited[y, x + 1]))
            && (x > 0 ==> (Neighbor(x - 1, y, WEST, EAST) in cs <==> !visited[y, x - 1]))
            && (forall i, j :: 0 <= i < j < |cs| ==> cs[i].dir < cs[j].dir)
  {
  }

  /** A cell without candidates has every in-grid neighbour visited. */
  lemma NoCandidatesClosed(visited: array2<bool>, vis: set<Pos>, p: Pos)
    requires p.y < visited.Length0 && p.x < visited.Length1 && VisitedMirrors(visited, vis)
    requires Candidates(p.x, p.y, visited) == []
    ensures Closed(vis, p, visited.Length1, visited.Length0)
  {
    CandidatesSpec(p.x, p.y, visited);
  }

  /** Builds the candidate list of (x, y) by pushing each unvisited in-grid
      neighbour in turn. */
  method UnvisitedNeighbors(x: nat, y: nat, visited: array2<bool>) returns (neighbors: seq<Neighbor>)
    requires y < visited.Length0 && x < visited.Length1
    ensures neighbors == Candidates(x, y, visited)
  {
    var north := if y > 0 && !visited[y - 1, x] then [Neighbor(x, y - 1, NORTH, SOUTH)] else [];
    var south := if y + 1 < visited.Length0 && !visited[y + 1, x] then [Neighbor(x, y + 1, SOUTH, NORTH)] else [];
    var east := if x + 1 < visited.Length1 && !visited[y, x + 1] then [Neighbor(x + 1, y, EAST, WEST)] else [];
    neighbors := [];
    if y > 0 && !visited[y - 1, x] {
      neighbors := neighbors + [Neighbor(x, y - 1, NORTH, SOUTH)];
    }
    assert neighbors == north;
    if y + 1 < visited.Length0 && !visited[y + 1, x] {
      neighbors := neighbors + [Neighbor(x, y + 1, SOUTH, NORTH)];
    }
    assert neighbors == north + south;
    if x + 1 < visited.Length1 && !visited[y, x + 1] {
      neighbors := neighbors + [Neighbor(x + 1, y, EAST, WEST)];
    }
    assert neighbors == north + south + east;
    if x > 0 && !visited[y, x - 1] {
      neighbors := neighbors + [Neighbor(x - 1, y, WEST, EAST)];
    }
  }

  // ---------------------------------------------------------------------------
  // Properties of a grid

  ghost function Grid(w: nat, h: nat): set<Pos> {
    set x: nat, y: nat | x < w && y < h :: Pos(x, y)
  }

  ghost function Row(w: nat, y: nat): set<Pos> {
    set x: nat | x < w :: Pos(x, y)
  }

  lemma {:induction false} RowSize(w: nat, y: nat)
    ensures |Row(w, y)| == w
  {
    if w > 0 {
      var smaller := Row(w - 1, y);
      forall p ensures p in Row(w, y) <==> p in smaller + {Pos(w - 1, y)} {
      }
      assert Row(w, y) == smaller + {Pos(w - 1, y)};
      RowSize(w - 1, y);
      assert Pos(w - 1, y) !in smaller;
    } else {
      assert Row(w, y) == {};
    }
  }

  lemma {:induction false} GridSize(w: nat, h: nat)
    ensures |Grid(w, h)| == w * h
  {
    if h > 0 {
      var upper, last := Grid(w, h - 1), Row(w, h - 1);
      forall p ensures p in Grid(w, h) <==> p in upper + last {
      }
      assert Grid(w, h) == upper + last;
      assert upper !! last;
      GridSize(w, h - 1);
      RowSize(w, h - 1);
      assert |upper + last| == |upper| + |last|;
      assert w * h == w * (h - 1) + w;
    } else {
      assert Grid(w, h) == {};
    }
  }

  predicate InGrid(cells: array2<Cell>, p: Pos) {
    p.y < cells.Length0 && p.x < cells.Length1
  }

  /** Only the four direction bits are ever set. */
  ghost predicate MasksWellFormed(cells: array2<Cell>)
    reads cells
  {
    forall y: nat, x: nat | y < cells.Length0 && x < cells.Length1 :: cells[y, x].passages & 0xF0 == 0
  }

  /** No passage bit points outside the grid. */
  ghost predicate PassagesStayInside(cells: array2<Cell>)
    reads cells
  {
    forall y: nat, x: nat | y < cells.Length0 && x < cells.Length1 ::
      && (y == 0 ==> !cells[y, x].IsOpen(NORTH))
      && (y == cells.Length0 - 1 ==> !cells[y, x].IsOpen(SOUTH))
      && (x == cells.Length1 - 1 ==> !cells[y, x].IsOpen(EAST))
      && (x == 0 ==> !cells[y, x].IsOpen(WEST))
  }

  /** An open passage from (x, y) toward a neighbour is open from the
      neighbour back toward (x, y). */
  ghost predicate SymmetricAt(cells: array2<Cell>, x: nat, y: nat)
    reads cells
    requires y < cells.Length0 && x < cells.Length1
  {
    && (cells[y, x].IsOpen(NORTH) ==> y > 0 && cells[y - 1, x].IsOpen(SOUTH))
    && (cells[y, x].IsOpen(SOUTH) ==> y + 1 < cells.Length0 && cells[y + 1, x].IsOpen(NORTH))
    && (cells[y, x].IsOpen(EAST) ==> x + 1 < cells.Length1 && cells[y, x + 1].IsOpen(WEST))
    && (cells[y, x].IsOpen(WEST) ==> x > 0 && cells[y, x - 1].IsOpen(EAST))
  }

  ghost predicate PassagesSymmetric(cells: array2<Cell>)
    reads cells
  {
    forall y: nat, x: nat | y < cells.Length0 && x < cells.Length1 :: SymmetricAt(cells, x, y)
  }

  /** a and b are orthogonally adjacent cells of the grid joined by an open
      passage: a's bit toward b and b's bit toward a are both set. */
  ghost predicate Linked(cells: array2<Cell>, a: Pos, b: Pos)
    reads cells
  {
    && InGrid(cells, a) && InGrid(cells, b)
    && exists d :: IsDirection(d) && Adjacent(a.x, a.y, b.x, b.y, d)
                && cells[a.y, a.x].IsOpen(d) && cells[b.y, b.x].IsOpen(Opposite(d))
  }

  /** A walk through open passages from `from` to `to`. */
  ghost predicate IsPath(cells: array2<Cell>, path: seq<Pos>, from: Pos, to: Pos)
    reads cells
  {
    && |path| > 0 && path[0] == from && path[|path| - 1] == to
    && forall i :: 0 <= i < |path| - 1 ==> Linked(cells, path[i], path[i + 1])
  }

  /** p can be reached from (0, 0) through open passages. */
  ghost predicate Reachable(cells: array2<Cell>, p: Pos)
    reads cells
  {
    exists path :: IsPath(cells, path, Pos(0, 0), p)
  }

  ghost predicate TreeEdge(parent: map<Pos, Pos>, a: Pos, b: Pos) {
    (a in parent && parent[a] == b) || (b in parent && parent[b] == a)
  }

  /** Every open passage of cell (x, y) leads to its parent or to a child. */
  ghost predicate OnlyTreePassagesAt(cells: array2<Cell>, parent: map<Pos, Pos>, x: nat, y: nat)
    reads cells
    requires y < cells.Length0 && x < cells.Length1
  {
    && (cells[y, x].IsOpen(NORTH) ==> y > 0 && TreeEdge(parent, Pos(x, y), Pos(x, y - 1)))
    && (cells[y, x].IsOpen(SOUTH) ==> TreeEdge(parent, Pos(x, y), Pos(x, y + 1)))
    && (cells[y, x].IsOpen(EAST) ==> TreeEdge(parent, Pos(x, y), Pos(x + 1, y)))
    && (cells[y, x].IsOpen(WEST) ==> x > 0 && TreeEdge(parent, Pos(x, y), Pos(x - 1, y)))
  }

  ghost predicate OnlyTreePassages(cells: array2<Cell>, parent: map<Pos, Pos>)
    reads cells
  {
    forall y: nat, x: nat | y < cells.Length0 && x < cells.Length1 :: OnlyTreePassagesAt(cells, parent, x, y)
  }

  // ---------------------------------------------------------------------------
  // The carving invariant, stated per cell so that one carving step can be
  // shown to preserve it cell by cell

  ghost predicate ParentLinkAt(cells: array2<Cell>, parent: map<Pos, Pos>, x: nat, y: nat)
    reads cells
    requires y < cells.Length0 && x < cells.Length1
  {
    Pos(x, y) in parent ==>
      var p := parent[Pos(x, y)];
      || (y > 0 && p == Pos(x, y - 1) && cells[y, x].IsOpen(NORTH))
      || (p == Pos(x, y + 1) && cells[y, x].IsOpen(SOUTH))
      || (p == Pos(x + 1, y) && cells[y, x].IsOpen(EAST))
      || (x > 0 && p == Pos(x - 1, y) && cells[y, x].IsOpen(WEST))
  }

  ghost predicate CellInv(cells: array2<Cell>, vis: set<Pos>, parent: map<Pos, Pos>, x: nat, y: nat)
    reads cells
    requires y < cells.Length0 && x < cells.Length1
  {
    && cells[y, x].passages & 0xF0 == 0
    && (Pos(x, y) !in vis ==> cells[y, x].passages == 0)
    && SymmetricAt(cells, x, y)
    && OnlyTreePassagesAt(cells, parent, x, y)
    && ParentLinkAt(cells, parent, x, y)
  }

  ghost predicate AllCellInv(cells: array2<Cell>, vis: set<Pos>, parent: map<Pos, Pos>)
    reads cells
  {
    forall y: nat, x: nat | y < cells.Length0 && x < cells.Length1 :: CellInv(cells, vis, parent, x, y)
  }

  /** All in-grid neighbours of p are in vis. */
  ghost predicate Closed(vis: set<Pos>, p: Pos, w: nat, h: nat) {
    && (p.y > 0 ==> Pos(p.x, p.y - 1) in vis)
    && (p.y + 1 < h ==> Pos(p.x, p.y + 1) in vis)
    && (p.x + 1 < w ==> Pos(p.x + 1, p.y) in vis)
    && (p.x > 0 ==> Pos(p.x - 1, p.y) in vis)
  }

  /** The parent map is a tree rooted at (0, 0): the root has no parent, every
      other cell of vis has one, visited strictly earlier. */
  ghost predicate RootedTree(vis: set<Pos>, parent: map<Pos, Pos>, order: map<Pos, nat>) {
    && Pos(0, 0) in vis
    && parent.Keys == vis - {Pos(0, 0)}
    && order.Keys == vis
    && forall c {:trigger parent[c]} :: c in parent ==> parent[c] in vis && order[parent[c]] < order[c]
  }

  /** One carving step: the current cell a gains bit d, its unvisited
      neighbour b in direction d gains the opposite bit, nothing else changes. */
  twostate predicate Carved(cells: array2<Cell>, a: Pos, b: Pos, d: bv8)
    reads cells
  {
    && InGrid(cells, a) && InGrid(cells, b)
    && IsDirection(d) && Adjacent(a.x, a.y, b.x, b.y, d)
    && cells[a.y, a.x] == Cell(old(cells[a.y, a.x]).passages | d)
    && cells[b.y, b.x] == Cell(old(cells[b.y, b.x]).passages | Opposite(d))
    && forall y: nat, x: nat | y < cells.Length0 && x < cells.Length1 && Pos(x, y) != a && Pos(x, y) != b ::
         cells[y, x] == old(cells[y, x])
  }

  /** The invariant gives, for every cell with a parent, an open passage
      between the two. */
  lemma ParentLinked(cells: array2<Cell>, vis: set<Pos>, parent: map<Pos, Pos>, c: Pos)
    requires AllCellInv(cells, vis, parent) && InGrid(cells, c) && c in parent
    ensures Linked(cells, parent[c], c)
  {
    assert CellInv(cells, vis, parent, c.x, c.y);
    var p := parent[c];
    if c.y > 0 && p == Pos(c.x, c.y - 1) && cells[c.y, c.x].IsOpen(NORTH) {
      assert Adjacent(p.x, p.y, c.x, c.y, SOUTH) && Opposite(SOUTH) == NORTH;
    } else if p == Pos(c.x, c.y + 1) && cells[c.y, c.x].IsOpen(SOUTH) {
      assert Adjacent(p.x, p.y, c.x, c.y, NORTH) && Opposite(NORTH) == SOUTH;
    } else if p == Pos(c.x + 1, c.y) && cells[c.y, c.x].IsOpen(EAST) {
      assert Adjacent(p.x, p.y, c.x, c.y, WEST) && Opposite(WEST) == EAST;
    } else {
      assert Adjacent(p.x, p.y, c.x, c.y, EAST) && Opposite(EAST) == WEST;
    }
  }

  /** Following parents from any visited cell reaches (0, 0) through open
      passages. */
  lemma PathFromOrigin(cells: array2<Cell>, vis: set<Pos>, parent: map<Pos, Pos>, order: map<Pos, nat>, c: Pos)
    returns (path: seq<Pos>)
    requires AllCellInv(cells, vis, parent) && RootedTree(vis, parent, order)
    requires vis <= Grid(cells.Length1, cells.Length0)
    requires c in vis
    ensures IsPath(cells, path, Pos(0, 0), c)
    decreases order[c]
  {
    if c == Pos(0, 0) {
      path := [c];
    } else {
      var p := parent[c];
      var prefix := PathFromOrigin(cells, vis, parent, order, p);
      ParentLinked(cells, vis, parent, c);
      path := prefix + [c];
      forall i | 0 <= i < |path| - 1
        ensures Linked(cells, path[i], path[i + 1])
      {
        if i < |prefix| - 1 {
          assert path[i] == prefix[i] && path[i + 1] == prefix[i + 1];
        }
      }
    }
  }

  /** A set containing (0, 0) in which every member has all its in-grid
      neighbours is the whole grid. */
  lemma {:induction false} ClosedSetCoversGrid(vis: set<Pos>, w: nat, h: nat)
    requires Pos(0, 0) in vis
    requires forall p {:trigger Closed(vis, p, w, h)} :: p in vis ==> Closed(vis, p, w, h)
    ensures Grid(w, h) <= vis
  {
    forall p | p in Grid(w, h) ensures p in vis {
      ColumnReached(vis, w, h, p.y);
      RowReached(vis, w, h, p.x, p.y);
    }
  }

  lemma {:induction false} ColumnReached(vis: set<Pos>, w: nat, h: nat, y: nat)
    requires Pos(0, 0) in vis
    requires forall p {:trigger Closed(vis, p, w, h)} :: p in vis ==> Closed(vis, p, w, h)
    requires y < h
    ensures Pos(0, y) in vis
  {
    if y > 0 {
      ColumnReached(vis, w, h, y - 1);
      assert Closed(vis, Pos(0, y - 1), w, h);
    }
  }

  lemma {:induction false} RowReached(vis: set<Pos>, w: nat, h: nat, x: nat, y: nat)
    requires Pos(0, y) in vis
    requires forall p {:trigger Closed(vis, p, w, h)} :: p in vis ==> Closed(vis, p, w, h)
    requires x < w
    ensures Pos(x, y) in vis
  {
    if x > 0 {
      RowReached(vis, w, h, x - 1, y);
      assert Closed(vis, Pos(x - 1, y), w, h);
    }
  }

  /** The invariant, once every cell is visited, gives the four grid
      properties: masks within four bits, no passage leaving the grid,
      symmetric passages and only tree passages. */
  lemma InvariantGivesGridProperties(cells: array2<Cell>, vis: set<Pos>, parent: map<Pos, Pos>)
    requires AllCellInv(cells, vis, parent)
    ensures MasksWellFormed(cells) && PassagesSymmetric(cells) && OnlyTreePassages(cells, parent)
    ensures PassagesStayInside(cells)
  {
    forall y: nat, x: nat | y < cells.Length0 && x < cells.Length1
      ensures cells[y, x].passages & 0xF0 == 0 && SymmetricAt(cells, x, y)
      ensures OnlyTreePassagesAt(cells, parent, x, y)
    {
      assert CellInv(cells, vis, parent, x, y);
    }
  }

  /** When the stack has emptied, every visited cell has all its neighbours
      visited, so the tree spans the grid and the postconditions of Generate
      follow from the invariant. */
  lemma DfsComplete(cells: array2<Cell>, vis: set<Pos>, parent: map<Pos, Pos>, order: map<Pos, nat>)
    requires cells.Length0 >= 1 && cells.Length1 >= 1
    requires vis <= Grid(cells.Length1, cells.Length0)
    requires RootedTree(vis, parent, order) && AllCellInv(cells, vis, parent)
    requires forall p {:trigger Closed(vis, p, cells.Length1, cells.Length0)} :: p in vis ==> Closed(vis, p, cells.Length1, cells.Length0)
    ensures vis == Grid(cells.Length1, cells.Length0)
    ensures MasksWellFormed(cells) && PassagesStayInside(cells) && PassagesSymmetric(cells)
    ensures parent.Keys == Grid(cells.Length1, cells.Length0) - {Pos(0, 0)}
    ensures forall c :: c in parent ==> Linked(cells, parent[c], c)
    ensures OnlyTreePassages(cells, parent)
    ensures |vis| == cells.Length1 * cells.Length0 && |parent| == |vis| - 1
    ensures forall x: nat, y: nat | x < cells.Length1 && y < cells.Length0 ::
              Reachable(cells, Pos(x, y))
  {
    var w, h := cells.Length1, cells.Length0;
    ClosedSetCoversGrid(vis, w, h);
    GridSize(w, h);
    assert |parent.Keys| == |vis| - 1;
    InvariantGivesGridProperties(cells, vis, parent);
    forall c | c in parent ensures Linked(cells, parent[c], c) {
      ParentLinked(cells, vis, parent, c);
    }
    forall x: nat, y: nat | x < w && y < h
      ensures Reachable(cells, Pos(x, y))
    {
      var path := PathFromOrigin(cells, vis, parent, order, Pos(x, y));
    }
  }

  // ---------------------------------------------------------------------------
  // The loop invariant of the generator

  /** The stack is a chain of the tree from (0, 0): each entry is visited and
      is the parent of the entry above it. */
  ghost predicate StackIsTreeChain(stack: seq<Pos>, vis: set<Pos>, parent: map<Pos, Pos>) {
    && (|stack| > 0 ==> stack[0] == Pos(0, 0))
    && (forall i :: 0 <= i < |stack| ==> stack[i] in vis)
    && (forall i :: 1 <= i < |stack| ==> stack[i] in parent && parent[stack[i]] == stack[i - 1])
  }

  ghost predicate VisitedMirrors(visited: array2<bool>, vis: set<Pos>)
    reads visited
  {
    forall y: nat, x: nat | y < visited.Length0 && x < visited.Length1 :: visited[y, x] <==> Pos(x, y) in vis
  }

  /** Every visited cell that has left the stack has no unvisited neighbour. */
  ghost predicate ClosedOffStack(vis: set<Pos>, stack: seq<Pos>, w: nat, h: nat) {
    forall p {:trigger Closed(vis, p, w, h)} :: p in vis && p !in stack ==> Closed(vis, p, w, h)
  }

  ghost predicate OrderBelow(order: map<Pos, nat>, n: nat) {
    forall c {:trigger order[c]} :: c in order ==> order[c] < n
  }

  ghost predicate DfsInv(cells: array2<Cell>, visited: array2<bool>, stack: seq<Pos>, vis: set<Pos>,
                         parent: map<Pos, Pos>, order: map<Pos, nat>, carvings: nat)
    reads cells, visited
  {
    && visited.Length0 == cells.Length0 && visited.Length1 == cells.Length1
    && vis <= Grid(cells.Length1, cells.Length0)
    && VisitedMirrors(visited, vis)
    && RootedTree(vis, parent, order)
    && OrderBelow(order, |vis|)
    && AllCellInv(cells, vis, parent)
    && StackIsTreeChain(stack, vis, parent)
    && ClosedOffStack(vis, stack, cells.Length1, cells.Length0)
    && carvings == |vis| - 1
  }

  /** When the stack is empty the search has visited the whole grid, and the
      masks hold the spanning tree it built. */
  lemma SearchDone(cells: array2<Cell>, visited: array2<bool>, vis: set<Pos>, parent: map<Pos, Pos>,
                   order: map<Pos, nat>, carvings: nat)
    requires cells.Length0 >= 1 && cells.Length1 >= 1
    requires DfsInv(cells, visited, [], vis, parent, order, carvings)
    ensures MasksWellFormed(cells) && PassagesStayInside(cells) && PassagesSymmetric(cells)
    ensures parent.Keys == Grid(cells.Length1, cells.Length0) - {Pos(0, 0)}
    ensures forall c :: c in parent ==> Linked(cells, parent[c], c)
    ensures OnlyTreePassages(cells, parent)
    ensures carvings == |parent| == cells.Length1 * cells.Length0 - 1
    ensures forall x: nat, y: nat | x < cells.Length1 && y < cells.Length0 :: Reachable(cells, Pos(x, y))
  {
    var w, h := cells.Length1, cells.Length0;
    forall p | p in vis ensures Closed(vis, p, w, h) {
      assert p !in [];
    }
    DfsComplete(cells, vis, parent, order);
  }

  /** Consecutive stack entries are adjacent and joined by an open passage:
      the stack is an open path from (0, 0) to its top. */
  lemma StackIsOpenPath(cells: array2<Cell>, visited: array2<bool>, stack: seq<Pos>, vis: set<Pos>,
                        parent: map<Pos, Pos>, order: map<Pos, nat>, carvings: nat)
    requires DfsInv(cells, visited, stack, vis, parent, order, carvings) && |stack| > 0
    ensures IsPath(cells, stack, Pos(0, 0), stack[|stack| - 1])
  {
    forall i | 0 <= i < |stack| - 1 ensures Linked(cells, stack[i], stack[i + 1]) {
      assert stack[i + 1] in vis;
      ParentLinked(cells, vis, parent, stack[i + 1]);
    }
  }

  lemma InitialInv(cells: array2<Cell>, visited: array2<bool>)
    requires visited.Length0 == cells.Length0 >= 1 && visited.Length1 == cells.Length1 >= 1
    requires forall y: nat, x: nat | y < cells.Length0 && x < cells.Length1 :: cells[y, x] == Cell(0)
    requires forall y: nat, x: nat | y < visited.Length0 && x < visited.Length1 :: visited[y, x] <==> x == 0 && y == 0
    ensures DfsInv(cells, visited, [Pos(0, 0)], {Pos(0, 0)}, map[], map[Pos(0, 0) := 0], 0)
  {
    forall y: nat, x: nat | y < cells.Length0 && x < cells.Length1
      ensures CellInv(cells, {Pos(0, 0)}, map[], x, y)
    {
      assert cells[y, x] == Cell(0);
    }
  }

  /** Backtracking from a top cell whose neighbours are all visited. */
  lemma PopKeepsInv(cells: array2<Cell>, visited: array2<bool>, stack: seq<Pos>, vis: set<Pos>,
                    parent: map<Pos, Pos>, order: map<Pos, nat>, carvings: nat)
    requires DfsInv(cells, visited, stack, vis, parent, order, carvings) && |stack| > 0
    requires Closed(vis, stack[|stack| - 1], cells.Length1, cells.Length0)
    ensures DfsInv(cells, visited, stack[..|stack| - 1], vis, parent, order, carvings)
  {
    var rest := stack[..|stack| - 1];
    forall p | p in vis && p !in rest ensures Closed(vis, p, cells.Length1, cells.Length0) {
      if p !in stack {
        assert Closed(vis, p, cells.Length1, cells.Length0);
      } else {
        var i :| 0 <= i < |stack| && stack[i] == p;
        assert i == |stack| - 1;
      }
    }
  }

  lemma PushKeepsTree(vis: set<Pos>, parent: map<Pos, Pos>, order: map<Pos, nat>, top: Pos, next: Pos)
    requires RootedTree(vis, parent, order) && OrderBelow(order, |vis|)
    requires top in vis && next !in vis
    ensures RootedTree(vis + {next}, parent[next := top], order[next := |vis|])
    ensures OrderBelow(order[next := |vis|], |vis + {next}|)
  {
    var parent', order' := parent[next := top], order[next := |vis|];
    forall c | c in parent' ensures parent'[c] in vis + {next} && order'[parent'[c]] < order'[c] {
      if c != next {
        assert parent[c] in vis && order[parent[c]] < order[c];
        assert parent[c] != next;
      } else {
        assert order[top] < |vis|;
      }
    }
    forall c | c in order' ensures order'[c] < |vis + {next}| {
      if c != next { assert order[c] < |vis|; }
    }
  }

  lemma PushKeepsStack(stack: seq<Pos>, vis: set<Pos>, parent: map<Pos, Pos>, order: map<Pos, nat>, next: Pos)
    requires StackIsTreeChain(stack, vis, parent) && RootedTree(vis, parent, order) && |stack| > 0
    requires next !in vis
    ensures StackIsTreeChain(stack + [next], vis + {next}, parent[next := stack[|stack| - 1]])
  {
    var stack' := stack + [next];
    forall i | 1 <= i < |stack'| ensures stack'[i] in parent[next := stack[|stack| - 1]]
      && parent[next := stack[|stack| - 1]][stack'[i]] == stack'[i - 1]
    {
      if i < |stack| {
        assert stack'[i] == stack[i] && stack'[i - 1] == stack[i - 1];
        assert stack[i] in vis;
      }
    }
  }

  lemma PushKeepsClosed(vis: set<Pos>, stack: seq<Pos>, w: nat, h: nat, next: Pos)
    requires ClosedOffStack(vis, stack, w, h)
    ensures ClosedOffStack(vis + {next}, stack + [next], w, h)
  {
    var stack', vis' := stack + [next], vis + {next};
    forall p | p in vis' && p !in stack' ensures Closed(vis', p, w, h) {
      assert p in vis && p !in stack;
      assert Closed(vis, p, w, h);
    }
  }

  /**
   * One push step of the backtracker: the arrays and the ghost search state
   * before it, and the unvisited cell `next` entered from the top of the stack
   * in direction `dir`. The two-state lemmas about the step are its members, so
   * that each is called with at most one argument besides the step itself.
   */
  datatype Push = Push(cells: array2<Cell>, visited: array2<bool>, stack: seq<Pos>, vis: set<Pos>,
                       parent: map<Pos, Pos>, order: map<Pos, nat>, carvings: nat, next: Pos, dir: bv8)
  {
    /** The carving of the step has happened: the top of the stack gained
        `dir`, `next` the opposite bit, nothing else changed. */
    twostate predicate Carving()
      reads cells
    {
      && |stack| > 0 && next !in vis && stack[|stack| - 1] in vis && next !in parent
      && Carved(cells, stack[|stack| - 1], next, dir)
    }

    /** Carving only adds open bits. */
    twostate lemma Grows()
      requires Carving()
      ensures forall y: nat, x: nat, e: bv8 | y < cells.Length0 && x < cells.Length1 && old(cells[y, x]).IsOpen(e) ::
                cells[y, x].IsOpen(e)
    {
    }

    /** The entered cell had no passages; now it has exactly the one back to its parent. */
    twostate lemma KeepsCellInvAtNext()
      requires Carving()
      requires old(CellInv(cells, vis, parent, next.x, next.y))
      requires forall y: nat, x: nat, e: bv8 | y < cells.Length0 && x < cells.Length1 && old(cells[y, x]).IsOpen(e) ::
                 cells[y, x].IsOpen(e)
      ensures CellInv(cells, vis + {next}, parent[next := stack[|stack| - 1]], next.x, next.y)
    {
      var a := stack[|stack| - 1];
      assert old(cells[next.y, next.x]).passages == 0;
      assert TreeEdge(parent[next := a], next, a);
    }

    /** The top cell gains the passage to its new child. */
    twostate lemma KeepsCellInvAtTop()
      requires Carving()
      requires old(CellInv(cells, vis, parent, stack[|stack| - 1].x, stack[|stack| - 1].y))
      requires forall y: nat, x: nat, e: bv8 | y < cells.Length0 && x < cells.Length1 && old(cells[y, x]).IsOpen(e) ::
                 cells[y, x].IsOpen(e)
      ensures CellInv(cells, vis + {next}, parent[next := stack[|stack| - 1]], stack[|stack| - 1].x, stack[|stack| - 1].y)
    {
      var a := stack[|stack| - 1];
      assert TreeEdge(parent[next := a], a, next);
      assert cells[next.y, next.x].IsOpen(Opposite(dir));
    }

    /** Any other cell keeps its mask; only its neighbours' masks may have grown. */
    twostate lemma KeepsCellInvElsewhere(p: Pos)
      requires Carving() && InGrid(cells, p) && p != next && p != stack[|stack| - 1]
      requires old(CellInv(cells, vis, parent, p.x, p.y))
      requires forall y: nat, x: nat, e: bv8 | y < cells.Length0 && x < cells.Length1 && old(cells[y, x]).IsOpen(e) ::
                 cells[y, x].IsOpen(e)
      ensures CellInv(cells, vis + {next}, parent[next := stack[|stack| - 1]], p.x, p.y)
    {
      assert cells[p.y, p.x] == old(cells[p.y, p.x]);
    }

    /** The carving keeps the cell invariant: `next` joins vis with the top of
        the stack as its parent. */
    twostate lemma KeepsCellInv()
      requires old(AllCellInv(cells, vis, parent)) && Carving()
      ensures AllCellInv(cells, vis + {next}, parent[next := stack[|stack| - 1]])
    {
      Grows();
      var vis', parent' := vis + {next}, parent[next := stack[|stack| - 1]];
      forall y: nat, x: nat | y < cells.Length0 && x < cells.Length1
        ensures CellInv(cells, vis', parent', x, y)
      {
        assert old(CellInv(cells, vis, parent, x, y));
        if Pos(x, y) == next {
          KeepsCellInvAtNext();
        } else if Pos(x, y) == stack[|stack| - 1] {
          KeepsCellInvAtTop();
        } else {
          KeepsCellInvElsewhere(Pos(x, y));
        }
      }
    }

    twostate lemma KeepsMirror()
      requires old(VisitedMirrors(visited, vis))
      requires forall y: nat, x: nat | y < visited.Length0 && x < visited.Length1 ::
                 visited[y, x] == (old(visited[y, x]) || Pos(x, y) == next)
      ensures VisitedMirrors(visited, vis + {next})
    {
      forall y: nat, x: nat | y < visited.Length0 && x < visited.Length1
        ensures visited[y, x] <==> Pos(x, y) in vis + {next}
      {
        assert old(visited[y, x]) <==> Pos(x, y) in vis;
      }
    }

    /** Carving from the top cell to an unvisited neighbour and pushing it
        keeps the search invariant. */
    twostate lemma KeepsInv()
      requires old(DfsInv(cells, visited, stack, vis, parent, order, carvings)) && |stack| > 0
      requires Carved(cells, stack[|stack| - 1], next, dir) && next !in vis
      requires visited.Length0 == cells.Length0 && visited.Length1 == cells.Length1
      requires forall y: nat, x: nat | y < visited.Length0 && x < visited.Length1 ::
                 visited[y, x] == (old(visited[y, x]) || Pos(x, y) == next)
      ensures DfsInv(cells, visited, stack + [next], vis + {next}, parent[next := stack[|stack| - 1]],
                     order[next := |vis|], carvings + 1)
    {
      var top := stack[|stack| - 1];
      assert old(AllCellInv(cells, vis, parent));
      assert top in vis && next !in parent;
      KeepsCellInv();
      PushKeepsTree(vis, parent, order, top, next);
      PushKeepsStack(stack, vis, parent, order, next);
      PushKeepsClosed(vis, stack, cells.Length1, cells.Length0, next);
      KeepsMirror();
    }
  }

  // ---------------------------------------------------------------------------
  // The generator

  /** Opens the passage from `from` toward the neighbour n in both masks and
      marks n visited. */
  method CarvePassage(cells: array2<Cell>, visited: array2<bool>, from: Pos, n: Neighbor)
    requires InGrid(cells, from) && n.ny < cells.Length0 && n.nx < cells.Length1
    requires visited.Length0 == cells.Length0 && visited.Length1 == cells.Length1
    requires IsDirection(n.dir) && n.opposite == Opposite(n.dir) && Adjacent(from.x, from.y, n.nx, n.ny, n.dir)
    modifies cells, visited
    ensures Carved(cells, from, Pos(n.nx, n.ny), n.dir)
    ensures forall y: nat, x: nat | y < visited.Length0 && x < visited.Length1 ::
              visited[y, x] == (old(visited[y, x]) || Pos(x, y) == Pos(n.nx, n.ny))
  {
    cells[from.y, from.x] := Cell(cells[from.y, from.x].passages | n.dir);
    cells[n.ny, n.nx] := Cell(cells[n.ny, n.nx].passages | n.opposite);
    visited[n.ny, n.nx] := true;
  }

  /** The state before the first iteration: a closed grid with the origin visited and pushed. */
  method StartSearch(width: nat, height: nat)
    returns (cells: array2<Cell>, visited: array2<bool>, stack: seq<Pos>, ghost vis: set<Pos>,
             ghost parent: map<Pos, Pos>, ghost order: map<Pos, nat>, ghost carvings: nat)
    requires width >= 1 && height >= 1
    ensures fresh(cells) && fresh(visited)
    ensures cells.Length0 == height && cells.Length1 == width
    ensures forall y: nat, x: nat | y < cells.Length0 && x < cells.Length1 :: cells[y, x] == Cell(0)
    ensures forall y: nat, x: nat | y < visited.Length0 && x < visited.Length1 :: visited[y, x] <==> x == 0 && y == 0
    ensures stack == [Pos(0, 0)] && vis == {Pos(0, 0)} && parent == map[] && carvings == 0
    ensures DfsInv(cells, visited, stack, vis, parent, order, carvings)
  {
    cells := new Cell[height, width]((_, _) => Cell(0));
    visited := new bool[height, width]((_, _) => false);
    stack := [];

    visited[0, 0] := true;
    stack := stack + [Pos(0, 0)];

    vis := {Pos(0, 0)};
    order := map[Pos(0, 0) := 0];
    parent := map[];
    carvings := 0;
    InitialInv(cells, visited);
  }

  /**
   * One iteration of the backtracker: inspect the cell on top of the stack and
   * either pop it (no unvisited neighbour) or carve into a random unvisited
   * neighbour and push that.
   */
  method Advance(cells: array2<Cell>, visited: array2<bool>, rng: Rng, stack: seq<Pos>, ghost vis: set<Pos>,
                 ghost parent: map<Pos, Pos>, ghost order: map<Pos, nat>, ghost carvings: nat)
    returns (stack': seq<Pos>, ghost vis': set<Pos>, ghost parent': map<Pos, Pos>,
             ghost order': map<Pos, nat>, ghost carvings': nat)
    requires DfsInv(cells, visited, stack, vis, parent, order, carvings) && |stack| > 0
    modifies cells, visited, rng
    ensures var top := stack[|stack| - 1];
            var candidates := old(Candidates(top.x, top.y, visited));
            candidates == [] ==>
              && stack' == stack[..|stack| - 1] && vis' == vis && parent' == parent && carvings' == carvings
              && unchanged(cells, visited, rng)
    ensures var top := stack[|stack| - 1];
            var candidates := old(Candidates(top.x, top.y, visited));
            candidates != [] ==>
              && rng.state == LcgNext(old(rng.state))
              && var n := candidates[IndexFromState(rng.state, |candidates|)];
                 var next := Pos(n.nx, n.ny);
                 && stack' == stack + [next] && vis' == vis + {next} && next !in vis
                 && parent' == parent[next := top] && carvings' == carvings + 1
                 && Carved(cells, top, next, n.dir)
                 && forall y: nat, x: nat | y < visited.Length0 && x < visited.Length1 ::
                      visited[y, x] == (old(visited[y, x]) || Pos(x, y) == next)
    ensures DfsInv(cells, visited, stack', vis', parent', order', carvings')
    ensures vis' == vis ==> |stack'| < |stack|
    ensures vis' != vis ==> vis < vis'
  {
    var top := stack[|stack| - 1];
    var x, y := top.x, top.y;
    var neighbors := UnvisitedNeighbors(x, y, visited);
    if |neighbors| == 0 {
      NoCandidatesClosed(visited, vis, top);
      PopKeepsInv(cells, visited, stack, vis, parent, order, carvings);
      stack', vis', parent', order', carvings' := stack[..|stack| - 1], vis, parent, order, carvings;
    } else {
      CandidatesSpec(x, y, visited);
      stack', vis', parent', order', carvings' :=
        Descend(cells, visited, rng, stack, vis, parent, order, carvings, neighbors);
    }
  }

  /** The push branch of an iteration: pick one of the unvisited neighbours of
      the top cell at random, carve into it and push it. */
  method Descend(cells: array2<Cell>, visited: array2<bool>, rng: Rng, stack: seq<Pos>, ghost vis: set<Pos>,
                 ghost parent: map<Pos, Pos>, ghost order: map<Pos, nat>, ghost carvings: nat,
                 neighbors: seq<Neighbor>)
    returns (stack': seq<Pos>, ghost vis': set<Pos>, ghost parent': map<Pos, Pos>,
             ghost order': map<Pos, nat>, ghost carvings': nat)
    requires DfsInv(cells, visited, stack, vis, parent, order, carvings) && |stack| > 0 && |neighbors| > 0
    requires forall n | n in neighbors :: IsUnvisitedNeighbor(stack[|stack| - 1].x, stack[|stack| - 1].y, n, visited)
    modifies cells, visited, rng
    ensures rng.state == LcgNext(old(rng.state))
    ensures var n := neighbors[IndexFromState(rng.state, |neighbors|)];
            var next := Pos(n.nx, n.ny);
            && stack' == stack + [next] && vis' == vis + {next} && next !in vis
            && parent' == parent[next := stack[|stack| - 1]] && carvings' == carvings + 1
            && Carved(cells, stack[|stack| - 1], next, n.dir)
            && forall y: nat, x: nat | y < visited.Length0 && x < visited.Length1 ::
                 visited[y, x] == (old(visited[y, x]) || Pos(x, y) == next)
    ensures DfsInv(cells, visited, stack', vis', parent', order', carvings')
    ensures vis < vis'
  {
    var top := stack[|stack| - 1];
    var idx := rng.NextUsize(|neighbors|);
    var n := neighbors[idx];
    assert n in neighbors;
    var next := Pos(n.nx, n.ny);
    assert IsUnvisitedNeighbor(top.x, top.y, n, visited);
    assert next !in vis;
    label Before:
    CarvePassage(cells, visited, top, n);
    Push(cells, visited, stack, vis, parent, order, carvings, next, n.dir).KeepsInv@Before();
    stack', vis' := stack + [next], vis + {next};
    parent', order', carvings' := parent[next := top], order[next := |vis|], carvings + 1;
  }

  method Generate(seed: u64, width: nat, height: nat)
    returns (cells: array2<Cell>, ghost parent: map<Pos, Pos>, ghost carvings: nat)
    requires width >= 1 && height >= 1
    ensures fresh(cells)
    ensures cells.Length0 == height && cells.Length1 == width
    ensures MasksWellFormed(cells) && PassagesStayInside(cells) && PassagesSymmetric(cells)
    ensures parent.Keys == Grid(width, height) - {Pos(0, 0)}
    ensures forall c :: c in parent ==> Linked(cells, parent[c], c)
    ensures OnlyTreePassages(cells, parent)
    ensures carvings == |parent| == width * height - 1
    ensures forall x: nat, y: nat | x < width && y < height :: Reachable(cells, Pos(x, y))
  {
    var visited, stack;
    ghost var vis, order;
    cells, visited, stack, vis, parent, order, carvings := StartSearch(width, height);
    var rng := new Rng.New(seed);

    while |stack| > 0
      invariant cells.Length0 == height && cells.Length1 == width
      invariant DfsInv(cells, visited, stack, vis, parent, order, carvings)
      decreases Grid(width, height) - vis, |stack|
    {
      stack, vis, parent, order, carvings := Advance(cells, visited, rng, stack, vis, parent, order, carvings);
    }

    SearchDone(cells, visited, vis, parent, order, carvings);
  }

  /** The generator at the game's fixed size, MAZE_WIDTH by MAZE_HEIGHT. */
  method GenerateMaze(seed: u64) returns (cells: array2<Cell>, ghost parent: map<Pos, Pos>, ghost carvings: nat)
    ensures fresh(cells)
    ensures cells.Length0 == MAZE_HEIGHT && cells.Length1 == MAZE_WIDTH
    ensures MasksWellFormed(cells) && PassagesStayInside(cells) && PassagesSymmetric(cells)
    ensures parent.Keys == Grid(MAZE_WIDTH, MAZE_HEIGHT) - {Pos(0, 0)}
    ensures forall c :: c in parent ==> Linked(cells, parent[c], c)
    ensures OnlyTreePassages(cells, parent)
    ensures carvings == |parent| == MAZE_WIDTH * MAZE_HEIGHT - 1 == 399
    ensures forall x: nat, y: nat | x < MAZE_WIDTH && y < MAZE_HEIGHT :: Reachable(cells, Pos(x, y))
  {
    cells, parent, carvings := Generate(seed, MAZE_WIDTH, MAZE_HEIGHT);
  }
}
