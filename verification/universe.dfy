/** The Game-of-Life universe: a width-by-height grid of cells stored row
    by row, whose edges wrap around in both directions. */
module Universes {
  import opened Parsers
  import opened Shapes

  /** Position of (row, column) in the row-major cell store of a grid of
      the given width. */
  function Index(width: nat, row: nat, column: nat): nat {
    row * width + column
  }

  /** The row of store index i. */
  function RowOf(width: nat, i: nat): nat
    requires width > 0
  {
    i / width
  }

  /** The column of store index i. */
  function ColumnOf(width: nat, i: nat): nat
    requires width > 0
  {
    i % width
  }

  /** Within a row the index determines the position: dividing it by the
      width gives back the row, the remainder gives back the column. */
  lemma IndexDivMod(width: nat, row: nat, column: nat)
    ensures column < width ==>
      Index(width, row, column) / width == row && Index(width, row, column) % width == column
  {
    if column < width {
      var n := row * width + column;
      var q, r := n / width, n % width;
      assert n == q * width + r;
      if q > row {
        MulAtLeast(q - row, width);
        assert false;
      } else if q < row {
        MulAtLeast(row - q, width);
        assert false;
      }
    }
  }

  lemma MulAtLeast(k: nat, width: nat)
    requires k >= 1
    ensures k * width >= width
  {
  }

  /** The rows before and including row fit in a store of height rows. */
  lemma RowStep(width: nat, height: nat, row: nat)
    requires row < height
    ensures row * width + width == (row + 1) * width <= width * height
  {
  }

  lemma StoreSize(width: nat, height: nat)
    ensures height * width == width * height
  {
  }

  /** The first k entries of a hold the next generation ng, the others
      still hold the current generation g. */
  ghost predicate Filled(a: array<bool>, ng: seq<bool>, g: seq<bool>, k: nat)
    reads a
  {
    && |ng| == a.Length && |g| == a.Length && k <= a.Length
    && (forall i :: 0 <= i < k ==> a[i] == ng[i])
    && (forall i :: k <= i < a.Length ==> a[i] == g[i])
  }

  /** A cell inside the grid has an index inside the store. */
  lemma IndexInRange(width: nat, height: nat, row: nat, column: nat)
    requires row < height && column < width
    ensures Index(width, row, column) < width * height
  {
    assert (row + 1) * width <= height * width;
  }

  /** The three offsets looked at along an axis of length n; n - 1 stands
      for -1, so that the sum stays unsigned and wraps modulo n. */
  function Deltas(n: nat): seq<nat>
    requires n > 0
  {
    [n - 1, 0, 1]
  }

  /** 1 when the cell at offset (deltaRow, deltaCol) from (row, column),
      wrapped around both edges, is alive and the offset pair is not
      literally (0, 0); otherwise 0. */
  function Hit(g: seq<bool>, width: nat, height: nat, row: nat, column: nat, deltaRow: nat, deltaCol: nat): nat
    requires width > 0 && height > 0 && |g| == width * height
  {
    if deltaRow == 0 && deltaCol == 0 then 0
    else
      var r, c := (row + deltaRow) % height, (column + deltaCol) % width;
      IndexInRange(width, height, r, c);
      if g[Index(width, r, c)] then 1 else 0
  }

  /** Hits of one row offset combined with the first b column offsets. */
  function RowHits(g: seq<bool>, width: nat, height: nat, row: nat, column: nat, deltaRow: nat, b: nat): nat
    requires width > 0 && height > 0 && |g| == width * height && b <= 3
  {
    if b == 0 then 0
    else RowHits(g, width, height, row, column, deltaRow, b - 1)
         + Hit(g, width, height, row, column, deltaRow, Deltas(width)[b - 1])
  }

  /** Hits of the first a row offsets, each with all three column offsets. */
  function PartialCount(g: seq<bool>, width: nat, height: nat, row: nat, column: nat, a: nat): nat
    requires width > 0 && height > 0 && |g| == width * height && a <= 3
  {
    if a == 0 then 0
    else PartialCount(g, width, height, row, column, a - 1)
         + RowHits(g, width, height, row, column, Deltas(height)[a - 1], 3)
  }

  /** The live-neighbour count of (row, column): all nine offset pairs but
      the literal (0, 0). On an axis of length 1 or 2 several offsets reach
      the same cell, and each of them counts. */
  function NeighborCount(g: seq<bool>, width: nat, height: nat, row: nat, column: nat): nat
    requires width > 0 && height > 0 && |g| == width * height
  {
    PartialCount(g, width, height, row, column, 3)
  }

  /** The transition rule, arm by arm: a live cell with fewer than two
      live neighbours dies, with two or three lives on, with more than
      three dies; a dead cell with exactly three becomes alive; any other
      cell keeps its state. */
  function Rule(alive: bool, n: nat): (next: bool)
    ensures next <==> (alive && (n == 2 || n == 3)) || (!alive && n == 3)
  {
    if alive && n < 2 then false
    else if alive && (n == 2 || n == 3) then true
    else if alive && n > 3 then false
    else if !alive && n == 3 then true
    else alive
  }

  /** The next generation: every cell follows the rule applied to its own
      state and its neighbour count, both taken from the current
      generation. */
  function NextGeneration(g: seq<bool>, width: nat, height: nat): (next: seq<bool>)
    requires |g| == width * height
    ensures |next| == |g|
  {
    if width == 0 || height == 0 then g else NextCells(g, width, height, |g|)
  }

  /** The first n cells, in row-major order, of the next generation. */
  function NextCells(g: seq<bool>, width: nat, height: nat, n: nat): (next: seq<bool>)
    requires width > 0 && height > 0 && |g| == width * height && n <= |g|
    ensures |next| == n
  {
    if n == 0 then []
    else
      NextCells(g, width, height, n - 1)
      + [Rule(g[n - 1], NeighborCount(g, width, height, RowOf(width, n - 1), ColumnOf(width, n - 1)))]
  }

  /** The store index a seeded coordinate (x, y) is written to. x is
      reduced modulo the width and used as the row, y is reduced modulo
      the height and used as the column. */
  function SeedIndex(width: nat, height: nat, c: Cell): nat
    requires width > 0 && height > 0
  {
    Index(width, c.0 % width, c.1 % height)
  }

  /** Every coordinate of the list lands inside the store. */
  predicate InRange(width: nat, height: nat, cells: seq<Cell>)
    requires width > 0 && height > 0
  {
    forall c :: c in cells ==> SeedIndex(width, height, c) < width * height
  }

  /** The store after seeding the coordinates one after the other: a cell
      is alive afterwards exactly when it was alive before or some
      coordinate lands on it. */
  function Seed(g: seq<bool>, width: nat, height: nat, cells: seq<Cell>): (r: seq<bool>)
    requires width > 0 && height > 0 && |g| == width * height && InRange(width, height, cells)
    ensures |r| == |g|
    ensures forall i :: 0 <= i < |g| ==>
      (r[i] <==> g[i] || exists c :: c in cells && SeedIndex(width, height, c) == i)
    decreases |cells|
  {
    if cells == [] then g
    else
      var init := cells[..|cells| - 1];
      var last := cells[|cells| - 1];
      assert cells == init + [last];
      Seed(g, width, height, init)[SeedIndex(width, height, last) := true]
  }

  class Universe {
    var width: nat
    var height: nat
    var cells: array<bool>

    /** The store holds exactly one cell per grid position. */
    ghost predicate Valid()
      reads this
    {
      cells.Length == width * height
    }

    /** A grid of the given size with every cell dead. */
    constructor (height: nat, width: nat)
      ensures Valid() && this.height == height && this.width == width && fresh(cells)
      ensures forall i :: 0 <= i < cells.Length ==> !cells[i]
    {
      this.height := height;
      this.width := width;
      cells := new bool[width * height](_ => false);
    }

    /** Changes the width; the store is replaced by an all-dead one. */
    method SetWidth(width: nat)
      modifies this
      ensures Valid() && this.width == width && height == old(height) && fresh(cells)
      ensures forall i :: 0 <= i < cells.Length ==> !cells[i]
    {
      this.width := width;
      cells := new bool[width * height](_ => false);
    }

    /** Changes the height; the store is replaced by an all-dead one. */
    method SetHeight(height: nat)
      modifies this
      ensures Valid() && this.height == height && width == old(width) && fresh(cells)
      ensures forall i :: 0 <= i < cells.Length ==> !cells[i]
    {
      this.height := height;
      cells := new bool[width * height](_ => false);
    }

    /** Brings every listed coordinate to life; never kills a cell. */
    method SetCells(cellsAlive: seq<Cell>)
      requires Valid() && width > 0 && height > 0
      requires InRange(width, height, cellsAlive)
      modifies cells
      ensures cells[..] == Seed(old(cells[..]), width, height, cellsAlive)
    {
      for k := 0 to |cellsAlive|
        invariant cells[..] == Seed(old(cells[..]), width, height, cellsAlive[..k])
      {
        var (x, y) := cellsAlive[k];
        var xScaled := x % width;
        var yScaled := y % height;
        var idx := Index(width, xScaled, yScaled);
        assert cellsAlive[k] in cellsAlive && idx == SeedIndex(width, height, cellsAlive[k]);
        assert cellsAlive[..k + 1][..k] == cellsAlive[..k];
        cells[idx] := true;
      }
      assert cellsAlive[..|cellsAlive|] == cellsAlive;
    }

    /** Counts the live neighbours of (row, column), wrapping around the
        edges. */
    method LiveNeighborCount(row: nat, column: nat) returns (count: nat)
      requires Valid() && width > 0 && height > 0
      ensures count == NeighborCount(cells[..], width, height, row, column)
      ensures count <= 8
    {
      ghost var g := cells[..];
      count := 0;
      var rowDeltas := [height - 1, 0, 1];
      var colDeltas := [width - 1, 0, 1];
      for a := 0 to 3
        invariant count == PartialCount(g, width, height, row, column, a)
      {
        var deltaRow := rowDeltas[a];
        for b := 0 to 3
          invariant count == PartialCount(g, width, height, row, column, a)
                             + RowHits(g, width, height, row, column, deltaRow, b)
        {
          var deltaCol := colDeltas[b];
          if !(deltaRow == 0 && deltaCol == 0) {
            var neighborRow := (row + deltaRow) % height;
            var neighborCol := (column + deltaCol) % width;
            IndexInRange(width, height, neighborRow, neighborCol);
            var idx := Index(width, neighborRow, neighborCol);
            if cells[idx] {
              count := count + 1;
            }
          }
        }
      }
      NeighborCountAtMostEight(g, width, height, row, column);
    }

    /** Advances one generation: the new state of every cell is computed
        from the old generation into a copy, which then replaces it. */
    method Tick()
      requires Valid()
      modifies this
      ensures Valid() && width == old(width) && height == old(height) && fresh(cells)
      ensures cells[..] == NextGeneration(old(cells[..]), width, height)
    {
      var current := cells;
      var next := new bool[current.Length](i requires 0 <= i < current.Length reads current => current[i]);
      TickRows(next);
      cells := next;
    }

    /** The outer loop of Tick: fills the copy row by row. */
    method TickRows(next: array<bool>)
      requires Valid() && next != cells && next[..] == cells[..]
      modifies next
      ensures next[..] == NextGeneration(cells[..], width, height)
    {
      ghost var g := cells[..];
      ghost var ng := NextGeneration(g, width, height);
      ghost var k := 0;
      for row := 0 to height
        invariant k == row * width
        invariant Filled(next, ng, g, k)
      {
        RowStep(width, height, row);
        TickRow(next, row, k, ng);
        k := k + width;
      }
      StoreSize(width, height);
    }

    /** The inner loop of Tick: computes the cells of one row of the next
        generation into the copy, left to right; the row starts at index
        start of the store. */
    method TickRow(next: array<bool>, row: nat, ghost start: nat, ghost ng: seq<bool>)
      requires Valid() && next != cells && row < height
      requires start == row * width && start + width <= next.Length
      requires ng == NextGeneration(cells[..], width, height)
      requires Filled(next, ng, cells[..], start)
      modifies next
      ensures Filled(next, ng, cells[..], start + width)
    {
      ghost var g := cells[..];
      ghost var k := start;
      for col := 0 to width
        invariant k == start + col
        invariant Filled(next, ng, g, k)
      {
        IndexInRange(width, height, row, col);
        var idx := Index(width, row, col);
        var cell := cells[idx];
        var liveNeighbors := LiveNeighborCount(row, col);
        NextGenerationAt(g, width, height, row, col);
        assert idx == k && cell == g[k];
        next[idx] := Rule(cell, liveNeighbors);
        k := k + 1;
      }
    }

    /** Decodes an RLE pattern, translates it by (x, y) and seeds it. A
        pattern that cannot be decoded leaves the grid as it was. */
    method SetRleShape(rle: string, x: nat, y: nat) returns (ok: bool)
      requires Valid() && width > 0 && height > 0
      requires Decode(rle).Decoded? ==> InRange(width, height, Shifted(Decode(rle).cells, x, y))
      modifies cells
      ensures ok <==> Decode(rle).Decoded?
      ensures ok ==> cells[..] == Seed(old(cells[..]), width, height, Shifted(Decode(rle).cells, x, y))
      ensures !ok ==> cells[..] == old(cells[..])
    {
      var decoded := FromRleString(rle);
      if decoded.Rejected? {
        return false;
      }
      var shape := new Shape(decoded.cells);
      shape.Shift(x, y);
      SetCells(shape.aliveCells);
      ok := true;
    }
  }

  /** Only eight of the nine offset pairs are ever counted. */
  lemma NeighborCountAtMostEight(g: seq<bool>, width: nat, height: nat, row: nat, column: nat)
    requires width > 0 && height > 0 && |g| == width * height
    ensures NeighborCount(g, width, height, row, column) <= 8
  {
    RowHitsAtMost(g, width, height, row, column, height - 1, 3);
    RowHitsAtMost(g, width, height, row, column, 1, 3);
    RowHitsAtMost(g, width, height, row, column, 0, 1);
    assert Hit(g, width, height, row, column, 0, Deltas(width)[1]) == 0;
    assert RowHits(g, width, height, row, column, 0, 3) <= 2;
    assert PartialCount(g, width, height, row, column, 1) <= 3;
    assert PartialCount(g, width, height, row, column, 2) <= 5;
  }

  lemma {:induction false} RowHitsAtMost(g: seq<bool>, width: nat, height: nat, row: nat, column: nat, deltaRow: nat, b: nat)
    requires width > 0 && height > 0 && |g| == width * height && b <= 3
    ensures RowHits(g, width, height, row, column, deltaRow, b) <= b
  {
    if b > 0 {
      RowHitsAtMost(g, width, height, row, column, deltaRow, b - 1);
    }
  }

  /** Cell (row, column) of the next generation follows the rule applied
      to that cell of the current one and its neighbour count there. */
  lemma NextGenerationAt(g: seq<bool>, width: nat, height: nat, row: nat, column: nat)
    requires |g| == width * height && row < height && column < width
    ensures Index(width, row, column) < |g|
    ensures NextGeneration(g, width, height)[Index(width, row, column)]
            == Rule(g[Index(width, row, column)], NeighborCount(g, width, height, row, column))
  {
    IndexInRange(width, height, row, column);
    IndexDivMod(width, row, column);
    NextCellsAt(g, width, height, |g|, Index(width, row, column));
  }

  lemma {:induction false} NextCellsAt(g: seq<bool>, width: nat, height: nat, n: nat, i: nat)
    requires width > 0 && height > 0 && |g| == width * height && i < n <= |g|
    ensures NextCells(g, width, height, n)[i]
            == Rule(g[i], NeighborCount(g, width, height, RowOf(width, i), ColumnOf(width, i)))
  {
    if i < n - 1 {
      NextCellsAt(g, width, height, n - 1, i);
    }
  }

  /** On a grid no wider than it is high every coordinate lands inside
      the store, whatever its size: the row x mod width is below the
      height, and the column y mod height needs at most width * (height
      - width) more cells than a square store holds. */
  lemma NarrowGridInRange(width: nat, height: nat, cells: seq<Cell>)
    requires 0 < width <= height
    ensures InRange(width, height, cells)
  {
    forall c | c in cells
      ensures SeedIndex(width, height, c) < width * height
    {
      NarrowIndex(width, height, c.0 % width, c.1 % height);
    }
  }

  lemma NarrowIndex(width: nat, height: nat, row: nat, column: nat)
    requires 0 < width <= height && row < width && column < height
    ensures Index(width, row, column) < width * height
  {
    MulMono(row, width - 1, width);
    assert width * height == width * width + width * (height - width);
    if height > width {
      MulAtLeast(width, height - width);
    }
    assert (width - 1) * width == width * width - width;
  }

  lemma MulMono(a: nat, b: nat, k: nat)
    requires a <= b
    ensures a * k <= b * k
  {
    assert b * k == a * k + (b - a) * k;
  }

  /** The x coordinate is used as the row: on a grid 3 wide and 2 high the
      coordinate (2, 1) lands on row 2, past the last row and outside the
      store, so seeding it is refused. */
  lemma NonSquareOutOfRange()
    ensures SeedIndex(3, 2, (2, 1)) == Index(3, 2, 1) == 7
    ensures !InRange(3, 2, [(2, 1)])
  {
  }

  /** Seeding depends only on which coordinates are listed, not on their
      order or repetitions. */
  lemma SeedIgnoresOrder(g: seq<bool>, width: nat, height: nat, a: seq<Cell>, b: seq<Cell>)
    requires width > 0 && height > 0 && |g| == width * height
    requires InRange(width, height, a) && InRange(width, height, b)
    requires forall c :: c in a <==> c in b
    ensures Seed(g, width, height, a) == Seed(g, width, height, b)
  {
  }

  /** Seeding (0, 0) and (1, 1) into an empty 2 x 2 grid sets the first and
      the last cell. */
  lemma SeedDiagonalExample()
    ensures InRange(2, 2, [(0, 0), (1, 1)])
    ensures Seed([false, false, false, false], 2, 2, [(0, 0), (1, 1)]) == [true, false, false, true]
  {
  }

  /** A position one step outside [0, n) brought back onto the axis. */
  function Wrap(i: int, n: nat): (w: nat)
    requires n > 0 && -1 <= i <= n
    ensures w < n
  {
    if i < 0 then i + n else if i == n then 0 else i
  }

  /** 1 when the cell at the signed position (r, c), at most one step off
      the grid along each axis and wrapped back onto it, is alive. */
  function AliveAt(g: seq<bool>, width: nat, height: nat, r: int, c: int): nat
    requires width > 0 && height > 0 && |g| == width * height
    requires -1 <= r <= height && -1 <= c <= width
  {
    var rr, cc := Wrap(r, height), Wrap(c, width);
    IndexInRange(width, height, rr, cc);
    if g[Index(width, rr, cc)] then 1 else 0
  }

  /** The toroidal Moore neighbourhood count: the live cells among the
      eight cells around (row, column), edges wrapping. */
  function MooreCount(g: seq<bool>, width: nat, height: nat, row: nat, column: nat): nat
    requires width > 0 && height > 0 && |g| == width * height
    requires row < height && column < width
  {
    var r, c := row as int, column as int;
    AliveAt(g, width, height, r - 1, c - 1) + AliveAt(g, width, height, r - 1, c)
    + AliveAt(g, width, height, r - 1, c + 1) + AliveAt(g, width, height, r, c - 1)
    + AliveAt(g, width, height, r, c + 1) + AliveAt(g, width, height, r + 1, c - 1)
    + AliveAt(g, width, height, r + 1, c) + AliveAt(g, width, height, r + 1, c + 1)
  }

  /** The three unsigned offsets n - 1, 0 and 1 of the counting loop,
      added to a position on the axis and reduced modulo n, reach the
      wrapped positions one before, at and one after it. */
  lemma OffsetsWrap(x: nat, n: nat)
    requires x < n
    ensures (x + (n - 1)) % n == Wrap(x - 1, n)
    ensures (x + 0) % n == x
    ensures (x + 1) % n == Wrap(x + 1, n)
  {
    IndexDivMod(n, 0, x);
    if x == 0 {
      IndexDivMod(n, 0, n - 1);
    } else {
      IndexDivMod(n, 1, x - 1);
    }
    if x + 1 < n {
      IndexDivMod(n, 0, x + 1);
    } else {
      IndexDivMod(n, 1, 0);
    }
  }

  /** On a grid at least two cells wide and high the count the loop
      computes is exactly the Moore neighbourhood count. */
  lemma NeighborCountIsMoore(g: seq<bool>, width: nat, height: nat, row: nat, column: nat)
    requires width >= 2 && height >= 2 && |g| == width * height
    requires row < height && column < width
    ensures NeighborCount(g, width, height, row, column) == MooreCount(g, width, height, row, column)
  {
    OffsetsWrap(row, height);
    OffsetsWrap(column, width);
    var r, c := row as int, column as int;
    var up, left := height - 1, width - 1;
    RowHitsAll(g, width, height, row, column, up);
    RowHitsAll(g, width, height, row, column, 0);
    RowHitsAll(g, width, height, row, column, 1);
    PartialCountAll(g, width, height, row, column);
    assert Hit(g, width, height, row, column, up, left) == AliveAt(g, width, height, r - 1, c - 1);
    assert Hit(g, width, height, row, column, up, 0) == AliveAt(g, width, height, r - 1, c);
    assert Hit(g, width, height, row, column, up, 1) == AliveAt(g, width, height, r - 1, c + 1);
    assert Hit(g, width, height, row, column, 0, left) == AliveAt(g, width, height, r, c - 1);
    assert Hit(g, width, height, row, column, 0, 1) == AliveAt(g, width, height, r, c + 1);
    assert Hit(g, width, height, row, column, 1, left) == AliveAt(g, width, height, r + 1, c - 1);
    assert Hit(g, width, height, row, column, 1, 0) == AliveAt(g, width, height, r + 1, c);
    assert Hit(g, width, height, row, column, 1, 1) == AliveAt(g, width, height, r + 1, c + 1);
  }

  /** The hits of one row offset are those of its three column offsets. */
  lemma RowHitsAll(g: seq<bool>, width: nat, height: nat, row: nat, column: nat, deltaRow: nat)
    requires width > 0 && height > 0 && |g| == width * height
    ensures RowHits(g, width, height, row, column, deltaRow, 3)
         == Hit(g, width, height, row, column, deltaRow, width - 1)
            + Hit(g, width, height, row, column, deltaRow, 0)
            + Hit(g, width, height, row, column, deltaRow, 1)
  {
    var d := Deltas(width);
    assert d[0] == width - 1 && d[1] == 0 && d[2] == 1;
    assert RowHits(g, width, height, row, column, deltaRow, 1)
        == Hit(g, width, height, row, column, deltaRow, d[0]);
    assert RowHits(g, width, height, row, column, deltaRow, 2)
        == RowHits(g, width, height, row, column, deltaRow, 1) + Hit(g, width, height, row, column, deltaRow, d[1]);
  }

  /** The count is the sum of the hits of the three row offsets. */
  lemma PartialCountAll(g: seq<bool>, width: nat, height: nat, row: nat, column: nat)
    requires width > 0 && height > 0 && |g| == width * height
    ensures NeighborCount(g, width, height, row, column)
         == RowHits(g, width, height, row, column, height - 1, 3)
            + RowHits(g, width, height, row, column, 0, 3)
            + RowHits(g, width, height, row, column, 1, 3)
  {
    var d := Deltas(height);
    assert d[0] == height - 1 && d[1] == 0 && d[2] == 1;
    assert PartialCount(g, width, height, row, column, 1)
        == RowHits(g, width, height, row, column, d[0], 3);
    assert PartialCount(g, width, height, row, column, 2)
        == PartialCount(g, width, height, row, column, 1) + RowHits(g, width, height, row, column, d[1], 3);
  }

  /** Nothing is counted on a grid where every cell is dead. */
  lemma NeighborCountOfDead(g: seq<bool>, width: nat, height: nat, row: nat, column: nat)
    requires width > 0 && height > 0 && |g| == width * height
    requires forall i :: 0 <= i < |g| ==> !g[i]
    ensures NeighborCount(g, width, height, row, column) == 0
  {
    PartialCountOfDead(g, width, height, row, column, 3);
  }

  lemma {:induction false} PartialCountOfDead(g: seq<bool>, width: nat, height: nat, row: nat, column: nat, a: nat)
    requires width > 0 && height > 0 && |g| == width * height && a <= 3
    requires forall i :: 0 <= i < |g| ==> !g[i]
    ensures PartialCount(g, width, height, row, column, a) == 0
  {
    if a > 0 {
      PartialCountOfDead(g, width, height, row, column, a - 1);
      RowHitsOfDead(g, width, height, row, column, Deltas(height)[a - 1], 3);
    }
  }

  lemma {:induction false} RowHitsOfDead(g: seq<bool>, width: nat, height: nat, row: nat, column: nat, deltaRow: nat, b: nat)
    requires width > 0 && height > 0 && |g| == width * height && b <= 3
    requires forall i :: 0 <= i < |g| ==> !g[i]
    ensures RowHits(g, width, height, row, column, deltaRow, b) == 0
  {
    if b > 0 {
      RowHitsOfDead(g, width, height, row, column, deltaRow, b - 1);
      var deltaCol := Deltas(width)[b - 1];
      if !(deltaRow == 0 && deltaCol == 0) {
        var r, c := (row + deltaRow) % height, (column + deltaCol) % width;
        IndexInRange(width, height, r, c);
        assert !g[Index(width, r, c)];
      }
    }
  }

  /** A grid with no live cell stays without one. */
  lemma DeadGridStaysDead(g: seq<bool>, width: nat, height: nat)
    requires |g| == width * height
    requires forall i :: 0 <= i < |g| ==> !g[i]
    ensures NextGeneration(g, width, height) == g
  {
    if width > 0 && height > 0 {
      var next := NextGeneration(g, width, height);
      forall i | 0 <= i < |g|
        ensures next[i] == g[i]
      {
        NextCellsAt(g, width, height, |g|, i);
        NeighborCountOfDead(g, width, height, RowOf(width, i), ColumnOf(width, i));
      }
    }
  }

  /** On a grid of a single cell the offsets along each axis are 0, 0 and
      1: four of the nine offset pairs are the literal (0, 0) and are
      skipped, and the other five all reach the cell itself. A lone live
      cell thus counts itself five times (the Moore count would be eight)
      and dies of overpopulation. */
  lemma LoneCellCountsItself()
    ensures NeighborCount([true], 1, 1, 0, 0) == 5
    ensures MooreCount([true], 1, 1, 0, 0) == 8
    ensures NextGeneration([true], 1, 1) == [false]
  {
  }
}
