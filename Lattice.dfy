/** The cubic lattice built by addItems: integer cells enumerated x-major, then y, then z,
    the jittered position of each cube, and the "closer than 3" relation between positions. */
module Lattice {

  /** The loop variables (x, y, z) of one pass through the triple loop. */
  datatype Cell = Cell(x: int, y: int, z: int)

  /** A point in scene space (exact reals stand for the source's doubles). */
  datatype Vec = Vec(x: real, y: real, z: real)

  /** Cubes per axis, spacing between cells, cube size and the proximity threshold. */
  const Extent: nat := 8
  const Margin: real := 2.5
  const Size: real := 1.0
  const Threshold: real := 3.0

  /** c is one of the cells the triple loop visits: every axis runs over [-n/2, n/2). */
  predicate InGrid(n: nat, c: Cell)
  {
    && -(n / 2) <= c.x < n / 2
    && -(n / 2) <= c.y < n / 2
    && -(n / 2) <= c.z < n / 2
  }

  /** Index in people of the entity pushed for cell c. */
  function CellIndex(n: nat, c: Cell): int
  {
    ((c.x + n / 2) * n + (c.y + n / 2)) * n + (c.z + n / 2)
  }

  /** The cell of the k-th pass of the triple loop (digits of k in base n). */
  function CellAt(n: nat, k: nat): Cell
    requires n > 0
  {
    Cell(k / n / n - n / 2, k / n % n - n / 2, k % n - n / 2)
  }

  /** All cells in the order the triple loop visits them. */
  function Grid(n: nat): seq<Cell>
  {
    if n == 0 then [] else seq(n * n * n, k requires 0 <= k => CellAt(n, k))
  }

  lemma DivModUnique(k: int, d: int, q: int, r: int)
    requires d > 0 && 0 <= r < d && k == q * d + r
    ensures k / d == q && k % d == r
  {
    var q', r' := k / d, k % d;
    assert (q - q') * d == r' - r;
    if q' < q {
      MulAtLeast(q - q', d);
    } else if q < q' {
      MulAtLeast(q' - q, d);
    }
  }

  lemma MulAtLeast(a: int, d: int)
    requires a >= 1 && d > 0
    ensures a * d >= d
  {
    assert a * d == (a - 1) * d + d;
  }

  lemma MulMono(a: int, b: int, n: nat)
    requires a <= b
    ensures a * n <= b * n
  {
    assert b * n - a * n == (b - a) * n;
  }

  /** The cell visited at index CellIndex(n, c) is c itself, and that index is one of the n³ passes. */
  lemma GridIndexOf(n: nat, c: Cell)
    requires n % 2 == 0 && InGrid(n, c)
    ensures 0 <= CellIndex(n, c) < |Grid(n)| == n * n * n
    ensures Grid(n)[CellIndex(n, c)] == c
  {
    var a, b, e := c.x + n / 2, c.y + n / 2, c.z + n / 2;
    var k := CellIndex(n, c);
    assert k == (a * n + b) * n + e;
    MulMono(a, n - 1, n);
    assert a * n + b <= n * n - 1;
    MulMono(a * n + b, n * n - 1, n);
    assert k < n * n * n;
    DivModUnique(k, n, a * n + b, e);
    DivModUnique(a * n + b, n, a, b);
  }

  /** The index arithmetic of the triple loop: the z loop ends where the next y value starts,
      the y loop ends where the next x value starts, and the x loop ends after n³ passes. */
  lemma NextLine(n: nat, x: int, y: int)
    requires n % 2 == 0
    ensures CellIndex(n, Cell(x, y + 1, -(n / 2))) == CellIndex(n, Cell(x, y, n / 2))
  {
    var r := (x + n / 2) * n + (y + n / 2);
    assert (r + 1) * n == r * n + n;
  }

  lemma NextSlab(n: nat, x: int)
    requires n % 2 == 0
    ensures CellIndex(n, Cell(x + 1, -(n / 2), -(n / 2))) == CellIndex(n, Cell(x, n / 2, -(n / 2)))
  {
    var a := x + n / 2;
    assert (a + 1) * n == a * n + n;
  }

  lemma LastPass(n: nat)
    requires n % 2 == 0
    ensures CellIndex(n, Cell(n / 2, -(n / 2), -(n / 2))) == n * n * n == |Grid(n)|
  {
  }

  lemma QuotientBelow(k: int, d: int, m: int)
    requires d > 0 && 0 <= k < m * d
    ensures k / d < m
  {
    if k / d >= m {
      MulMono(m, k / d, d);
    }
  }

  /** Every pass k < n³ visits a cell of the grid, and CellIndex maps that cell back to k. */
  lemma GridCellAt(n: nat, k: nat)
    requires n % 2 == 0 && k < |Grid(n)|
    ensures |Grid(n)| == n * n * n
    ensures InGrid(n, Grid(n)[k]) && CellIndex(n, Grid(n)[k]) == k
  {
    assert n > 0;
    var q := k / n;
    QuotientBelow(k, n, n * n);
    QuotientBelow(q, n, n);
    var a, b, e := q / n, q % n, k % n;
    assert k == q * n + e;
    assert q == a * n + b;
    assert Grid(n)[k] == Cell(a - n / 2, b - n / 2, e - n / 2);
  }

  /** With the source's constant n = 8 the triple loop creates 512 cubes. */
  lemma ExtentPeople()
    ensures Extent % 2 == 0 && |Grid(Extent)| == 512
  {
  }

  /** Distinct passes of the triple loop visit distinct cells. */
  lemma GridDistinct(n: nat, i: nat, j: nat)
    requires n % 2 == 0 && i < |Grid(n)| && j < |Grid(n)| && i != j
    ensures Grid(n)[i] != Grid(n)[j]
  {
    GridCellAt(n, i);
    GridCellAt(n, j);
  }

  /** The jitter of one cube: Math.random() * size - size / 2 on each axis. */
  predicate JitterInRange(j: Vec)
  {
    && -Size / 2.0 <= j.x < Size / 2.0
    && -Size / 2.0 <= j.y < Size / 2.0
    && -Size / 2.0 <= j.z < Size / 2.0
  }

  /** Where the cube of cell c is placed, given its jitter. */
  function Position(c: Cell, jitter: Vec): Vec
  {
    Vec((c.x as real + Size / 2.0) * Margin + jitter.x,
        (c.y as real + Size / 2.0) * Margin + jitter.y,
        (c.z as real + Size / 2.0) * Margin + jitter.z)
  }

  /** The positions of the cubes of cells, the k-th placed with jitter[k]. */
  function Placed(cells: seq<Cell>, jitter: seq<Vec>): seq<Vec>
    requires |cells| <= |jitter|
  {
    seq(|cells|, k requires 0 <= k < |cells| => Position(cells[k], jitter[k]))
  }

  function SqDist(p: Vec, q: Vec): real
  {
    (p.x - q.x) * (p.x - q.x) + (p.y - q.y) * (p.y - q.y) + (p.z - q.z) * (p.z - q.z)
  }

  /** distanceTo(p, q) < 3: the distance is the square root of SqDist, so this is SqDist < 9. */
  predicate Close(p: Vec, q: Vec)
  {
    SqDist(p, q) < Threshold * Threshold
  }

  lemma CloseSymmetric(p: Vec, q: Vec)
    ensures Close(p, q) <==> Close(q, p)
  {
    assert (p.x - q.x) * (p.x - q.x) == (q.x - p.x) * (q.x - p.x);
    assert (p.y - q.y) * (p.y - q.y) == (q.y - p.y) * (q.y - p.y);
    assert (p.z - q.z) * (p.z - q.z) == (q.z - p.z) * (q.z - p.z);
  }

  lemma SquareAbove(a: real)
    requires a > 4.0 || a < -4.0
    ensures a * a > 16.0
  {
    if a > 4.0 {
      assert a * a > 4.0 * a;
    } else {
      assert a * a > -4.0 * a;
    }
  }

  lemma SqDistCoversAxes(p: Vec, q: Vec)
    ensures SqDist(p, q) >= (p.x - q.x) * (p.x - q.x)
    ensures SqDist(p, q) >= (p.y - q.y) * (p.y - q.y)
    ensures SqDist(p, q) >= (p.z - q.z) * (p.z - q.z)
  {
    assert (p.x - q.x) * (p.x - q.x) >= 0.0;
    assert (p.y - q.y) * (p.y - q.y) >= 0.0;
    assert (p.z - q.z) * (p.z - q.z) >= 0.0;
  }

  /** Along one axis: two cubes whose offset on that axis squares to less than 9 sit in cells
      at most one step apart on it. */
  lemma AxisNear(ci: int, di: int, ji: real, ki: real)
    requires -Size / 2.0 <= ji < Size / 2.0 && -Size / 2.0 <= ki < Size / 2.0
    requires ((ci as real + Size / 2.0) * Margin + ji - ((di as real + Size / 2.0) * Margin + ki))
           * ((ci as real + Size / 2.0) * Margin + ji - ((di as real + Size / 2.0) * Margin + ki)) < 9.0
    ensures -1 <= ci - di <= 1
  {
    var g := (ci as real + Size / 2.0) * Margin + ji - ((di as real + Size / 2.0) * Margin + ki);
    assert g == (ci - di) as real * 2.5 + (ji - ki);
    if ci - di > 1 || ci - di < -1 {
      SquareAbove(g);
    }
  }

  /** Cubes closer than the threshold sit in lattice cells at most one step apart on every axis,
      so a cube has at most 26 neighbours. */
  lemma CloseCellsAdjacent(c: Cell, d: Cell, j: Vec, k: Vec)
    requires JitterInRange(j) && JitterInRange(k)
    requires Close(Position(c, j), Position(d, k))
    ensures -1 <= c.x - d.x <= 1 && -1 <= c.y - d.y <= 1 && -1 <= c.z - d.z <= 1
  {
    var p, q := Position(c, j), Position(d, k);
    SqDistCoversAxes(p, q);
    assert SqDist(p, q) < 9.0;
    AxisNear(c.x, d.x, j.x, k.x);
    AxisNear(c.y, d.y, j.y, k.y);
    AxisNear(c.z, d.z, j.z, k.z);
  }
}
