/** The city's chunk grid: which chunk holds a block at each level of detail, and which one draws each
    piece of a strip. */
module Chunks {

  const ROWS: int := 12
  const BANK_ROW: int := 13
  const BLOCK: real := 128.0
  const GRID_X0: real := -16_384.0
  const AVENUE: real := 80.0

  datatype ChunkKey = ChunkKey(strip: nat, lod: nat, i: int, j: int)

  datatype Rect = Rect(s0: real, s1: real, x0: real, x1: real)

  // ---- Rows ----

  /** The rows of blocks: `ROWS` on either side of the avenue, which is row 0. */
  predicate IsRow(row: int) {
    -ROWS <= row <= ROWS && row != 0
  }

  /** Rows are signed about the avenue, with no row 0; this numbers them from 0, and back. */
  function RowIndex(row: int): int {
    if row < 0 then row + ROWS else row - 1 + ROWS
  }

  function RowOfIndex(ri: int): int {
    if ri < ROWS then ri - ROWS else ri - ROWS + 1
  }

  /** Row numbering is a bijection from the rows to 0..24. */
  lemma RowNumbering(row: int, ri: int)
    ensures IsRow(row) ==> 0 <= RowIndex(row) < 2 * ROWS && RowOfIndex(RowIndex(row)) == row
    ensures 0 <= ri < 2 * ROWS ==> IsRow(RowOfIndex(ri)) && RowIndex(RowOfIndex(ri)) == ri
  {
  }

  // ---- Chunks of blocks ----

  /** Blocks a side: `2 << lod`. */
  function Size(lod: nat): (n: int)
    ensures n >= 2
  {
    if lod == 0 then 2 else 2 * Size(lod - 1)
  }

  function Min(a: int, b: int): int {
    if a < b then a else b
  }

  /** A chunk's blocks along, and its rows across by index. */
  function Blocks(key: ChunkKey): ((int, int), (int, int)) {
    var n := Size(key.lod);
    ((key.i * n, key.i * n + n), (key.j * n, Min(key.j * n + n, 2 * ROWS)))
  }

  /** Dafny's division is the Euclidean one the code asks for. */
  function Of(strip: nat, lod: nat, bx: int, row: int): ChunkKey {
    var n := Size(lod);
    ChunkKey(strip, lod, bx / n, RowIndex(row) / n)
  }

  predicate Holds(key: ChunkKey, bx: int, row: int) {
    var ((b0, b1), (r0, r1)) := Blocks(key);
    b0 <= bx < b1 && r0 <= RowIndex(row) < r1
  }

  lemma QuotientIs(v: int, n: int, q: int)
    requires n > 0
    ensures q * n <= v < q * n + n <==> v / n == q
  {
    var e := v / n - q;
    assert v == v / n * n + v % n;
    assert e * n == v - v % n - q * n;
    Multiples(e, n);
  }

  lemma Multiples(e: int, n: int)
    requires n > 0
    ensures e >= 1 ==> e * n >= n
    ensures e <= -1 ==> e * n <= -n
  {
  }

  /** A block lies in a chunk's ranges exactly when it is that chunk that is found for it; so at each
      level every block is in one chunk. */
  lemma HoldsIffOf(key: ChunkKey, bx: int, row: int)
    requires IsRow(row)
    ensures Holds(key, bx, row) <==> Of(key.strip, key.lod, bx, row) == key
  {
    var n := Size(key.lod);
    QuotientIs(bx, n, key.i);
    QuotientIs(RowIndex(row), n, key.j);
  }

  /** The chunk of the next level a chunk lies in. */
  function Coarser(key: ChunkKey): ChunkKey {
    key.(lod := key.lod + 1, i := key.i / 2, j := key.j / 2)
  }

  lemma QuotientTwice(v: int, n: int)
    requires n > 0
    ensures v / (2 * n) == v / n / 2
  {
    var q, h := v / n, v / n / 2;
    QuotientIs(v, n, q);
    QuotientIs(q, 2, h);
    Doubled(q, n, h);
    QuotientIs(v, 2 * n, h);
  }

  lemma Doubled(q: int, n: int, h: int)
    requires n > 0 && h * 2 <= q < h * 2 + 2
    ensures h * (2 * n) <= q * n && q * n + n <= h * (2 * n) + 2 * n
  {
    assert q == 2 * h || q == 2 * h + 1;
    assert h * (2 * n) == 2 * h * n;
  }

  /** Every block of a chunk is in one and the same chunk of the next level. */
  lemma LiesInsideOne(key: ChunkKey, bx: int, row: int, up: ChunkKey)
    requires IsRow(row) && Holds(key, bx, row) && up.strip == key.strip && up.lod == key.lod + 1
    ensures Holds(up, bx, row) <==> up == Coarser(key)
  {
    HoldsIffOf(key, bx, row);
    HoldsIffOf(up, bx, row);
    QuotientTwice(bx, Size(key.lod));
    QuotientTwice(RowIndex(row), Size(key.lod));
  }

  // ---- What a chunk draws ----

  /** The outer edge of row `k` from the strip's middle. */
  function RowEdge(k: int): real {
    AVENUE * 0.5 + BLOCK * k as real
  }

  function AbsInt(v: int): int {
    if v < 0 then -v else v
  }

  /** A row's span across a strip `width` wide. */
  function RowSpan(width: real, row: int): (real, real) {
    var k := Min(AbsInt(row), BANK_ROW);
    var mid := width * 0.5;
    if k == 0 then (mid - AVENUE * 0.5, mid + AVENUE * 0.5)
    else
      var (inner, outer) := if k == BANK_ROW then (RowEdge(ROWS), width * 0.5) else (RowEdge(k - 1), RowEdge(k));
      if row < 0 then (mid - outer, mid - inner) else (mid + inner, mid + outer)
  }

  /** Twelve rows of blocks 128 m deep on either side of an avenue 80 m wide, numbered outward from 1 and -1, and past
      them the banks. */
  lemma RowSpanIs(width: real, row: int)
    ensures var mid := width / 2.0;
            && (row == 0 ==> RowSpan(width, row) == (mid - 40.0, mid + 40.0))
            && (1 <= row <= 12 ==>
                  RowSpan(width, row) == (mid + 40.0 + 128.0 * (row - 1) as real, mid + 40.0 + 128.0 * row as real))
            && (row >= 13 ==> RowSpan(width, row) == (mid + 1576.0, width))
            && RowSpan(width, -row) == (width - RowSpan(width, row).1, width - RowSpan(width, row).0)
  {
  }

  /** Blocks are 128 m long, the first beginning 16384 m behind the middle. */
  lemma RectRunsAlong(width: real, key: ChunkKey)
    ensures var ((b0, b1), _) := Blocks(key);
            && RectOf(width, key).x0 == 128.0 * b0 as real - 16_384.0
            && RectOf(width, key).x1 == 128.0 * b1 as real - 16_384.0
  {
  }

  function RectOf(width: real, key: ChunkKey): Rect {
    var ((b0, b1), (r0, r1)) := Blocks(key);
    Rect(RowSpan(width, RowOfIndex(r0)).0, RowSpan(width, RowOfIndex(r1 - 1)).1,
         GRID_X0 + BLOCK * b0 as real, GRID_X0 + BLOCK * b1 as real)
  }

  /** A chunk's rect stretched to where its neighbour's begins: to the middle of the avenue, or to the strip's
      own edge. */
  function DrawRect(width: real, key: ChunkKey): Rect {
    var (_, (r0, r1)) := Blocks(key);
    var r := RectOf(width, key);
    var mid := width * 0.5;
    var s0 := if r0 == RowIndex(1) then mid else r.s0;
    var s1 := if r1 == RowIndex(-1) + 1 then mid else r.s1;
    Rect(if r0 == 0 then 0.0 else s0, if r1 == 2 * ROWS then width else s1, r.x0, r.x1)
  }

  /** Half-open. */
  predicate Draws(width: real, key: ChunkKey, s: real, x: real) {
    var r := DrawRect(width, key);
    r.s0 <= s < r.s1 && r.x0 <= x < r.x1
  }

  /** A chunk of the grid: its rows are on the strip. */
  predicate InGrid(key: ChunkKey) {
    0 <= key.j && key.j * Size(key.lod) < 2 * ROWS
  }

  /** Where, across the strip, what is drawn with row index `r` starts: the rows' own edges, but the
      glass at the ends and the avenue's middle between the inmost rows. */
  function Edge(width: real, r: int): real {
    var mid := width * 0.5;
    if r <= 0 then 0.0
    else if r >= 2 * ROWS then width
    else if r == ROWS then mid
    else if r < ROWS then mid - RowEdge(ROWS - r)
    else mid + RowEdge(r - ROWS)
  }

  /** The banks lie inside the strip. */
  predicate WideEnough(width: real) {
    width * 0.5 > RowEdge(ROWS)
  }

  lemma DrawnBetweenEdges(width: real, key: ChunkKey)
    requires InGrid(key)
    ensures var (_, (r0, r1)) := Blocks(key);
            var r := DrawRect(width, key);
            0 <= r0 < r1 <= 2 * ROWS && r.s0 == Edge(width, r0) && r.s1 == Edge(width, r1)
  {
    hide RowSpan, Edge;
    Multiples(key.j, Size(key.lod));
    var (_, (r0, r1)) := Blocks(key);
    SpanEdges(width, r0);
    SpanEdges(width, r1 - 1);
    FixedEdges(width);
  }

  lemma FixedEdges(width: real)
    ensures Edge(width, 0) == 0.0 && Edge(width, ROWS) == width * 0.5 && Edge(width, 2 * ROWS) == width
  {
  }

  /** Adjacent rows abut, but for the avenue between the inmost two. */
  lemma SpanEdges(width: real, ri: int)
    requires 0 <= ri < 2 * ROWS
    ensures var (lo, hi) := RowSpan(width, RowOfIndex(ri));
            && (ri != 0 && ri != ROWS ==> lo == Edge(width, ri))
            && (ri != ROWS - 1 && ri != 2 * ROWS - 1 ==> hi == Edge(width, ri + 1))
  {
  }

  lemma {:induction false} EdgesRise(width: real, a: int, b: int)
    requires WideEnough(width) && 0 <= a < b <= 2 * ROWS
    ensures Edge(width, a) < Edge(width, b)
    decreases b - a
  {
    if a + 1 < b {
      EdgesRise(width, a, b - 1);
      EdgeStep(width, b - 1);
    } else {
      EdgeStep(width, a);
    }
  }

  lemma EdgeStep(width: real, a: int)
    requires WideEnough(width) && 0 <= a < 2 * ROWS
    ensures Edge(width, a) < Edge(width, a + 1)
  {
  }

  /** The row index whose stretch of the strip `s` is in. */
  lemma {:induction false} FindRow(width: real, s: real, top: int) returns (r: int)
    requires WideEnough(width) && 0 <= top <= 2 * ROWS && 0.0 <= s < Edge(width, top)
    ensures 0 <= r < top && Edge(width, r) <= s < Edge(width, r + 1)
    decreases top
  {
    if Edge(width, top - 1) <= s {
      r := top - 1;
    } else {
      r := FindRow(width, s, top - 1);
    }
  }

  /** The chunk that draws what stands at (s, x). */
  function DrawnBy(strip: nat, lod: nat, ri: int, x: real): ChunkKey {
    var n := Size(lod);
    ChunkKey(strip, lod, ((x - GRID_X0) / BLOCK).Floor / n, ri / n)
  }

  lemma BlockAlong(x: real, b0: int, b1: int)
    ensures GRID_X0 + BLOCK * b0 as real <= x < GRID_X0 + BLOCK * b1 as real
       <==> b0 <= ((x - GRID_X0) / BLOCK).Floor < b1
  {
    var u := (x - GRID_X0) / BLOCK;
    assert x == GRID_X0 + BLOCK * u;
  }

  /** Main result: at every level, what stands anywhere on the strip, avenue and banks included, is
      drawn by exactly one chunk of the grid. */
  lemma DrawnByExactlyOne(width: real, strip: nat, lod: nat, s: real, x: real) returns (key: ChunkKey)
    requires WideEnough(width) && 0.0 <= s < width
    ensures key.strip == strip && key.lod == lod && InGrid(key) && Draws(width, key, s, x)
    ensures forall k: ChunkKey :: k.strip == strip && k.lod == lod && InGrid(k) && Draws(width, k, s, x) ==> k == key
  {
    var n := Size(lod);
    var r := FindRow(width, s, 2 * ROWS);
    key := DrawnBy(strip, lod, r, x);
    QuotientIs(r, n, key.j);
    assert InGrid(key) by {
      Multiples(key.j, n);
    }
    DrawsIff(width, key, s, x, r);
    forall k: ChunkKey | k.strip == strip && k.lod == lod && InGrid(k) && Draws(width, k, s, x)
      ensures k == key
    {
      DrawsIff(width, k, s, x, r);
    }
  }

  lemma DrawsIff(width: real, k: ChunkKey, s: real, x: real, r: int)
    requires WideEnough(width) && InGrid(k)
    requires 0 <= r < 2 * ROWS && Edge(width, r) <= s < Edge(width, r + 1)
    ensures Draws(width, k, s, x) <==> k == DrawnBy(k.strip, k.lod, r, x)
  {
    hide Edge, WideEnough;
    var n := Size(k.lod);
    var ((b0, b1), (r0, r1)) := Blocks(k);
    DrawnBetweenEdges(width, k);
    BetweenEdges(width, s, r, r0, r1);
    BlockAlong(x, b0, b1);
    QuotientIs(((x - GRID_X0) / BLOCK).Floor, n, k.i);
    QuotientIs(r, n, k.j);
  }

  lemma BetweenEdges(width: real, s: real, r: int, r0: int, r1: int)
    requires WideEnough(width) && 0 <= r0 < r1 <= 2 * ROWS
    requires 0 <= r < 2 * ROWS && Edge(width, r) <= s < Edge(width, r + 1)
    ensures Edge(width, r0) <= s < Edge(width, r1) <==> r0 <= r < r1
  {
    if r0 <= r {
      if r0 < r { EdgesRise(width, r0, r); }
    } else if r + 1 < r0 {
      EdgesRise(width, r + 1, r0);
    }
    if r < r1 {
      if r + 1 < r1 { EdgesRise(width, r + 1, r1); }
    } else if r1 < r {
      EdgesRise(width, r1, r);
    }
  }
}
