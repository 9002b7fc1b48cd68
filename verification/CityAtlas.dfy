/** The height map of the city's roofs, and the image that packs it under the block map. */
module CityAtlas {
  import opened Wrappers

  const STRIPS: nat := 3
  const BANK_ROW: int := 13
  const ATLAS_W: nat := 256
  const ATLAS_ROWS: nat := 27
  const ATLAS_H: nat := 81
  const HEIGHT_CELL: real := 16.0
  const HEIGHT_S0: real := -12.483_92
  const GRID_X0: real := -16_384.0
  const HEIGHT_COLS: nat := 2048
  const HEIGHT_ROWS: nat := 211
  const IMAGE_W: nat := 512
  const IMAGE_H: nat := 714
  const MAX_HEIGHT: real := 240.0

  // ---- One solid over one cell ----

  datatype Solid = Solid(s0: real, s1: real, x0: real, x1: real, top: real)

  function Ceil(x: real): int {
    -((-x).Floor)
  }

  function MinR(a: real, b: real): real {
    if a < b then a else b
  }

  function MaxR(a: real, b: real): real {
    if a > b then a else b
  }

  /** How much of a cell from `at` the span `lo..hi` covers. */
  function Overlap(lo: real, hi: real, at: real): real {
    MaxR(MinR(hi, at + HEIGHT_CELL) - MaxR(lo, at), 0.0)
  }

  function CellS(j: nat): real {
    HEIGHT_S0 + HEIGHT_CELL * j as real
  }

  function CellX(c: nat): real {
    GRID_X0 + HEIGHT_CELL * c as real
  }

  const HALF: real := HEIGHT_CELL * HEIGHT_CELL * 0.5

  /** Whether a solid counts as a roof, by its top. */
  predicate Counts(b: Solid) {
    1.0 <= b.top <= MAX_HEIGHT
  }

  predicate CoversHalf(b: Solid, c: nat, j: nat) {
    Overlap(b.s0, b.s1, CellS(j)) * Overlap(b.x0, b.x1, CellX(c)) >= HALF
  }

  /** What a solid raises a cell to. */
  function Raises(b: Solid, c: nat, j: nat): (r: Byte)
    ensures r > 0 <==> Counts(b) && CoversHalf(b, c, j)
  {
    if Counts(b) && CoversHalf(b, c, j) then Ceil(b.top) else 0
  }

  /** A cell half covered by a roof is raised to the least whole metre not below its top; one that is not, to
      nothing. */
  lemma RaisesIs(b: Solid, c: nat, j: nat)
    ensures var area := Overlap(b.s0, b.s1, -12.483_92 + 16.0 * j as real)
                        * Overlap(b.x0, b.x1, -16_384.0 + 16.0 * c as real);
            if 1.0 <= b.top <= 240.0 && area >= 128.0
            then b.top <= Raises(b, c, j) as real < b.top + 1.0
            else Raises(b, c, j) == 0
  {
    assert HALF == 128.0;
    hide Overlap;
  }

  /** The overlap is the length of the longest span within both, or nothing where there is none. */
  lemma OverlapIs(lo: real, hi: real, at: real)
    requires lo <= hi
    ensures forall a, b :: Within(a, b, lo, hi) && Within(a, b, at, at + HEIGHT_CELL) ==> b - a <= Overlap(lo, hi, at)
    ensures Overlap(lo, hi, at) == 0.0
         || exists a, b :: Within(a, b, lo, hi) && Within(a, b, at, at + HEIGHT_CELL) && b - a == Overlap(lo, hi, at)
  {
    var a, b := MaxR(lo, at), MinR(hi, at + HEIGHT_CELL);
    if Overlap(lo, hi, at) > 0.0 {
      assert Within(a, b, lo, hi) && Within(a, b, at, at + HEIGHT_CELL) && b - a == Overlap(lo, hi, at);
    }
  }

  predicate Within(a: real, b: real, lo: real, hi: real) {
    lo <= a <= b <= hi
  }

  function MaxB(a: Byte, b: Byte): Byte {
    if a > b then a else b
  }

  /** The specification: the tallest roof over a cell, of the solids given, however often. */
  function Roof(solids: seq<Solid>, c: nat, j: nat): Byte {
    if solids == [] then 0
    else MaxB(Roof(solids[..|solids| - 1], c, j), Raises(solids[|solids| - 1], c, j))
  }

  lemma RoofAppend(solids: seq<Solid>, b: Solid, c: nat, j: nat)
    ensures Roof(solids + [b], c, j) == MaxB(Roof(solids, c, j), Raises(b, c, j))
  {
    assert (solids + [b])[..|solids|] == solids;
  }

  /** It is the largest of what its solids raise the cell to, and is one of them unless nothing counts. */
  lemma {:induction false} RoofIsMax(solids: seq<Solid>, c: nat, j: nat)
    ensures forall b :: b in solids ==> Raises(b, c, j) <= Roof(solids, c, j)
    ensures Roof(solids, c, j) > 0 ==> exists b :: b in solids && Raises(b, c, j) == Roof(solids, c, j)
  {
    if solids != [] {
      var front, last := solids[..|solids| - 1], solids[|solids| - 1];
      RoofIsMax(front, c, j);
      assert solids == front + [last];
      if Roof(solids, c, j) > 0 {
        if Roof(solids, c, j) == Raises(last, c, j) {
          assert last in solids;
        } else {
          var b :| b in front && Raises(b, c, j) == Roof(front, c, j);
          assert b in solids;
        }
      }
    }
  }

  /** So it depends only on which solids are visited, not on how often or in what order. */
  lemma RoofOfSameSolids(a: seq<Solid>, b: seq<Solid>, c: nat, j: nat)
    requires forall s :: s in a <==> s in b
    ensures Roof(a, c, j) == Roof(b, c, j)
  {
    RoofIsMax(a, c, j);
    RoofIsMax(b, c, j);
  }

  // ---- The pruned loops ----

  /** The cells from `lo` to `hi` along one axis that a solid can reach: `from..to`. */
  function From(lo: real, origin: real): nat {
    var f := ((lo - origin) / HEIGHT_CELL).Floor;
    if f < 0 then 0 else f
  }

  function To(hi: real, origin: real, n: nat): int {
    var t := Ceil((hi - origin) / HEIGHT_CELL);
    if t < n then t else n
  }

  /** A cell outside the range is not covered at all. */
  lemma OutsideRange(lo: real, hi: real, origin: real, n: nat, k: nat)
    requires k < n && !(From(lo, origin) <= k < To(hi, origin, n))
    ensures Overlap(lo, hi, origin + HEIGHT_CELL * k as real) == 0.0
  {
    var at := origin + HEIGHT_CELL * k as real;
    if k < From(lo, origin) {
      var u := (lo - origin) / HEIGHT_CELL;
      assert u >= (k + 1) as real;
      assert lo == origin + HEIGHT_CELL * u;
      assert at + HEIGHT_CELL <= lo;
    } else {
      var u := (hi - origin) / HEIGHT_CELL;
      assert u <= k as real;
      assert hi == origin + HEIGHT_CELL * u;
      assert hi <= at;
    }
  }

  /** Only cells in both ranges can be half covered. */
  lemma PruningIsSound(b: Solid, c: nat, j: nat)
    requires c < HEIGHT_COLS && j < HEIGHT_ROWS
    requires !(From(b.x0, GRID_X0) <= c < To(b.x1, GRID_X0, HEIGHT_COLS)
               && From(b.s0, HEIGHT_S0) <= j < To(b.s1, HEIGHT_S0, HEIGHT_ROWS))
    ensures Raises(b, c, j) == 0
  {
    if !(From(b.x0, GRID_X0) <= c < To(b.x1, GRID_X0, HEIGHT_COLS)) {
      OutsideRange(b.x0, b.x1, GRID_X0, HEIGHT_COLS, c);
    } else {
      OutsideRange(b.s0, b.s1, HEIGHT_S0, HEIGHT_ROWS, j);
    }
  }

  /** The place of a cell in a strip's grid. */
  function CellAt(c: nat, j: nat): (r: nat)
    requires c < HEIGHT_COLS && j < HEIGHT_ROWS
    ensures r < HEIGHT_COLS * HEIGHT_ROWS
  {
    j * HEIGHT_COLS + c
  }

  lemma CellsApart(c: nat, j: nat, d: nat, k: nat)
    requires c < HEIGHT_COLS && j < HEIGHT_ROWS && d < HEIGHT_COLS && k < HEIGHT_ROWS
    ensures CellAt(c, j) == CellAt(d, k) <==> c == d && j == k
  {
  }

  /** `grid` holds, at each cell, what `was` held raised by `b`, in rows before `j` and in row `j`
      before column `c`. */
  ghost predicate RaisedTo(grid: seq<Byte>, was: seq<Byte>, b: Solid, c: int, j: int) {
    && |grid| == |was| == HEIGHT_COLS * HEIGHT_ROWS
    && forall d: nat, k: nat :: d < HEIGHT_COLS && k < HEIGHT_ROWS ==>
         grid[CellAt(d, k)]
         == if k < j || (k == j && d < c) then MaxB(was[CellAt(d, k)], Raises(b, d, k)) else was[CellAt(d, k)]
  }

  lemma NothingRaised(was: seq<Byte>, b: Solid, j0: nat)
    requires |was| == HEIGHT_COLS * HEIGHT_ROWS && (!Counts(b) || j0 == From(b.s0, HEIGHT_S0))
    ensures RaisedTo(was, was, b, 0, j0)
    ensures !Counts(b) ==> RaisedTo(was, was, b, 0, HEIGHT_ROWS)
  {
    hide From, To;
    forall d: nat, k: nat | d < HEIGHT_COLS && k < j0 && k < HEIGHT_ROWS
      ensures Raises(b, d, k) == 0
    {
      if Counts(b) {
        PruningIsSound(b, d, k);
      }
    }
  }

  lemma RowsLeft(grid: seq<Byte>, was: seq<Byte>, b: Solid, j: nat)
    requires RaisedTo(grid, was, b, 0, j) && j >= To(b.s1, HEIGHT_S0, HEIGHT_ROWS)
    ensures RaisedTo(grid, was, b, 0, HEIGHT_ROWS)
  {
    hide From, To, Raises;
    forall d: nat, k: nat | d < HEIGHT_COLS && j <= k < HEIGHT_ROWS
      ensures Raises(b, d, k) == 0
    {
      PruningIsSound(b, d, k);
    }
  }

  lemma ColumnsBefore(grid: seq<Byte>, was: seq<Byte>, b: Solid, j: nat)
    requires RaisedTo(grid, was, b, 0, j) && j < HEIGHT_ROWS
    ensures RaisedTo(grid, was, b, From(b.x0, GRID_X0), j)
  {
    hide From, To, Raises;
    forall d: nat | d < HEIGHT_COLS && d < From(b.x0, GRID_X0)
      ensures Raises(b, d, j) == 0
    {
      PruningIsSound(b, d, j);
    }
  }

  lemma ColumnsLeft(grid: seq<Byte>, was: seq<Byte>, b: Solid, c: nat, j: nat)
    requires RaisedTo(grid, was, b, c, j) && j < HEIGHT_ROWS && c >= To(b.x1, GRID_X0, HEIGHT_COLS)
    ensures RaisedTo(grid, was, b, 0, j + 1)
  {
    hide From, To, Raises;
    forall d: nat | c <= d < HEIGHT_COLS
      ensures Raises(b, d, j) == 0
    {
      PruningIsSound(b, d, j);
    }
  }

  lemma CellRaised(grid: seq<Byte>, was: seq<Byte>, b: Solid, c: nat, j: nat)
    requires RaisedTo(grid, was, b, c, j) && c < HEIGHT_COLS && j < HEIGHT_ROWS
    ensures RaisedTo(grid[CellAt(c, j) := MaxB(grid[CellAt(c, j)], Raises(b, c, j))], was, b, c + 1, j)
  {
    hide Raises, CellAt;
    var after := grid[CellAt(c, j) := MaxB(grid[CellAt(c, j)], Raises(b, c, j))];
    forall d: nat, k: nat | d < HEIGHT_COLS && k < HEIGHT_ROWS
      ensures after[CellAt(d, k)]
           == if k < j || (k == j && d < c + 1) then MaxB(was[CellAt(d, k)], Raises(b, d, k)) else was[CellAt(d, k)]
    {
      CellsApart(c, j, d, k);
    }
  }

  /** Raises every cell a solid covers at least half of, looking only where it can reach. */
  method Raise(grid: array<Byte>, b: Solid)
    requires grid.Length == HEIGHT_COLS * HEIGHT_ROWS
    modifies grid
    ensures RaisedTo(grid[..], old(grid[..]), b, 0, HEIGHT_ROWS)
  {
    hide Raises, From, To, RaisedTo;
    ghost var was := grid[..];
    NothingRaised(was, b, From(b.s0, HEIGHT_S0));
    if b.top > MAX_HEIGHT || b.top < 1.0 {
      return;
    }
    var j := From(b.s0, HEIGHT_S0);
    while j < To(b.s1, HEIGHT_S0, HEIGHT_ROWS)
      invariant RaisedTo(grid[..], was, b, 0, j)
    {
      ToBounded(b.s1, HEIGHT_S0, HEIGHT_ROWS);
      RaiseRow(grid, b, j, was);
      j := j + 1;
    }
    RowsLeft(grid[..], was, b, j);
  }

  lemma ToBounded(hi: real, origin: real, n: nat)
    ensures To(hi, origin, n) <= n
  {
  }

  method RaiseRow(grid: array<Byte>, b: Solid, j: nat, ghost was: seq<Byte>)
    requires grid.Length == HEIGHT_COLS * HEIGHT_ROWS && j < HEIGHT_ROWS && Counts(b)
    requires RaisedTo(grid[..], was, b, 0, j)
    modifies grid
    ensures RaisedTo(grid[..], was, b, 0, j + 1)
  {
    hide From, To, RaisedTo, Overlap;
    var across := Overlap(b.s0, b.s1, CellS(j));
    ColumnsBefore(grid[..], was, b, j);
    var c := From(b.x0, GRID_X0);
    while c < To(b.x1, GRID_X0, HEIGHT_COLS)
      invariant RaisedTo(grid[..], was, b, c, j)
    {
      ToBounded(b.x1, GRID_X0, HEIGHT_COLS);
      var along := Overlap(b.x0, b.x1, CellX(c));
      ghost var before := grid[..];
      CellRaised(before, was, b, c, j);
      if across * along >= HALF {
        var top := Ceil(b.top);
        grid[CellAt(c, j)] := MaxB(grid[CellAt(c, j)], top);
      }
      assert grid[..] == before[CellAt(c, j) := MaxB(before[CellAt(c, j)], Raises(b, c, j))];
      c := c + 1;
    }
    ColumnsLeft(grid[..], was, b, c, j);
  }

  /** All the solids visited for a strip, column of blocks by column. */
  function Visited(visits: seq<seq<Solid>>): seq<Solid> {
    if visits == [] then [] else Visited(visits[..|visits| - 1]) + visits[|visits| - 1]
  }

  lemma VisitedAppend(visits: seq<seq<Solid>>, v: seq<Solid>)
    ensures Visited(visits + [v]) == Visited(visits) + v
  {
    assert (visits + [v])[..|visits|] == visits;
  }

  ghost predicate RoofsOf(grid: seq<Byte>, solids: seq<Solid>) {
    |grid| == HEIGHT_COLS * HEIGHT_ROWS
    && forall c: nat, j: nat :: c < HEIGHT_COLS && j < HEIGHT_ROWS ==> grid[CellAt(c, j)] == Roof(solids, c, j)
  }

  lemma RoofsRaised(grid: seq<Byte>, was: seq<Byte>, solids: seq<Solid>, b: Solid)
    requires RoofsOf(was, solids) && RaisedTo(grid, was, b, 0, HEIGHT_ROWS)
    ensures RoofsOf(grid, solids + [b])
  {
    hide Raises, Roof;
    forall c: nat, j: nat | c < HEIGHT_COLS && j < HEIGHT_ROWS
      ensures grid[CellAt(c, j)] == Roof(solids + [b], c, j)
    {
      RoofAppend(solids, b, c, j);
    }
  }

  /** Main result: the height map of a strip is the tallest roof over each cell of all the solids its
      blocks' columns visit. */
  method HeightsOfStrip(visits: seq<seq<Solid>>) returns (grid: array<Byte>)
    ensures fresh(grid) && RoofsOf(grid[..], Visited(visits))
  {
    hide RaisedTo, RoofsOf;
    grid := new Byte[HEIGHT_COLS * HEIGHT_ROWS](_ => 0);
    ghost var done: seq<Solid> := [];
    NoRoofs(grid[..]);
    for bx := 0 to |visits|
      invariant fresh(grid) && grid.Length == HEIGHT_COLS * HEIGHT_ROWS
      invariant done == Visited(visits[..bx]) && RoofsOf(grid[..], done)
    {
      for k := 0 to |visits[bx]|
        invariant fresh(grid) && grid.Length == HEIGHT_COLS * HEIGHT_ROWS
        invariant done == Visited(visits[..bx]) + visits[bx][..k] && RoofsOf(grid[..], done)
      {
        ghost var was := grid[..];
        Raise(grid, visits[bx][k]);
        RoofsRaised(grid[..], was, done, visits[bx][k]);
        done := done + [visits[bx][k]];
        assert visits[bx][..k + 1] == visits[bx][..k] + [visits[bx][k]];
      }
      assert visits[..bx + 1] == visits[..bx] + [visits[bx]];
      VisitedAppend(visits[..bx], visits[bx]);
      assert visits[bx][..|visits[bx]|] == visits[bx];
    }
    assert visits[..|visits|] == visits;
  }

  lemma NoRoofs(grid: seq<Byte>)
    requires |grid| == HEIGHT_COLS * HEIGHT_ROWS && forall i :: 0 <= i < |grid| ==> grid[i] == 0
    ensures RoofsOf(grid, [])
  {
  }

  /** The height maps of every strip, one after another. */
  method Heights(visits: seq<seq<seq<Solid>>>) returns (out: seq<Byte>)
    requires |visits| == STRIPS
    ensures HeightsAre(out, visits)
  {
    hide RoofsOf;
    var a := HeightsOfStrip(visits[0]);
    var b := HeightsOfStrip(visits[1]);
    var c := HeightsOfStrip(visits[2]);
    Joined(a[..], b[..], c[..], visits);
    out := a[..] + b[..] + c[..];
  }

  /** The place of strip `strip`'s cell in the height maps. */
  function HeightAt(strip: nat, c: nat, j: nat): (r: nat)
    requires strip < STRIPS && c < HEIGHT_COLS && j < HEIGHT_ROWS
    ensures r < HEIGHT_COLS * HEIGHT_ROWS * STRIPS
  {
    (strip * HEIGHT_ROWS + j) * HEIGHT_COLS + c
  }

  ghost predicate HeightsAre(out: seq<Byte>, visits: seq<seq<seq<Solid>>>)
  {
    |visits| == STRIPS && |out| == HEIGHT_COLS * HEIGHT_ROWS * STRIPS
    && forall strip: nat, c: nat, j: nat :: strip < STRIPS && c < HEIGHT_COLS && j < HEIGHT_ROWS ==>
         out[HeightAt(strip, c, j)] == Roof(Visited(visits[strip]), c, j)
  }

  lemma Joined(a: seq<Byte>, b: seq<Byte>, d: seq<Byte>, visits: seq<seq<seq<Solid>>>)
    requires |visits| == STRIPS
    requires RoofsOf(a, Visited(visits[0])) && RoofsOf(b, Visited(visits[1])) && RoofsOf(d, Visited(visits[2]))
    ensures HeightsAre(a + b + d, visits)
  {
    hide Roof, Visited;
    var n := HEIGHT_COLS * HEIGHT_ROWS;
    var out := a + b + d;
    forall strip: nat, c: nat, j: nat | strip < STRIPS && c < HEIGHT_COLS && j < HEIGHT_ROWS
      ensures out[HeightAt(strip, c, j)] == Roof(Visited(visits[strip]), c, j)
    {
      assert HeightAt(strip, c, j) == strip * n + CellAt(c, j);
      if strip == 0 {
        assert out[HeightAt(strip, c, j)] == a[CellAt(c, j)];
      } else if strip == 1 {
        assert out[HeightAt(strip, c, j)] == b[CellAt(c, j)];
      } else {
        assert out[HeightAt(strip, c, j)] == d[CellAt(c, j)];
      }
    }
  }

  // ---- The packed image ----

  /** A block's four bytes: strip, block along, row. */
  type Texels = (nat, nat, int) -> (Byte, Byte, Byte, Byte)

  function Channel(t: (Byte, Byte, Byte, Byte), k: nat): Byte
    requires k < 4
  {
    match k case 0 => t.0 case 1 => t.1 case 2 => t.2 case _ => t.3
  }

  /** The byte of channel `k` of texel (x, y) of the image. */
  function ImageAt(x: nat, y: nat, k: nat): (r: nat)
    requires x < IMAGE_W && y < IMAGE_H && k < 4
    ensures r < IMAGE_W * IMAGE_H * 4
  {
    (y * IMAGE_W + x) * 4 + k
  }

  /** The row of the image a block's row is on: the shader's `atlas_texel`. */
  function BlockRow(strip: nat, row: int): (y: nat)
    requires strip < STRIPS && -BANK_ROW <= row <= BANK_ROW
    ensures y < ATLAS_H
  {
    strip * ATLAS_ROWS + row + BANK_ROW
  }

  /** Rows of the block map: the texel at (bx, y), by the strip and row it is on. */
  function BlockTexel(texel: Texels, bx: nat, y: nat): (Byte, Byte, Byte, Byte) {
    texel(y / ATLAS_ROWS, bx, y % ATLAS_ROWS - BANK_ROW)
  }

  function RowBytes(texel: Texels, y: nat, n: nat): (r: seq<Byte>)
    ensures |r| == 4 * n
  {
    if n == 0 then []
    else
      var t := BlockTexel(texel, n - 1, y);
      RowBytes(texel, y, n - 1) + [t.0, t.1, t.2, t.3]
  }

  lemma {:induction false} RowBytesAt(texel: Texels, y: nat, n: nat, bx: nat, k: nat)
    requires bx < n && k < 4
    ensures RowBytes(texel, y, n)[4 * bx + k] == Channel(BlockTexel(texel, bx, y), k)
  {
    if bx < n - 1 {
      RowBytesAt(texel, y, n - 1, bx, k);
    }
  }

  /** The block map, row by row. */
  method BlockAtlas(texel: Texels) returns (out: seq<Byte>)
    ensures |out| == ATLAS_W * ATLAS_H * 4
    ensures forall y :: 0 <= y < ATLAS_H ==> out[y * 1024..y * 1024 + 1024] == RowBytes(texel, y, ATLAS_W)
  {
    out := [];
    for strip := 0 to STRIPS
      invariant RowsWritten(out, texel, strip * ATLAS_ROWS)
    {
      for r := 0 to ATLAS_ROWS
        invariant RowsWritten(out, texel, strip * ATLAS_ROWS + r)
      {
        ghost var before, y := out, strip * ATLAS_ROWS + r;
        assert y / ATLAS_ROWS == strip && y % ATLAS_ROWS == r;
        var row := r - BANK_ROW;
        for bx := 0 to ATLAS_W
          invariant out == before + RowBytes(texel, y, bx)
        {
          var t := texel(strip, bx, row);
          assert t == BlockTexel(texel, bx, y);
          out := out + [t.0, t.1, t.2, t.3];
        }
        RowWritten(before, texel, y);
      }
    }
  }

  ghost predicate RowsWritten(out: seq<Byte>, texel: Texels, n: nat) {
    |out| == 1024 * n && forall y :: 0 <= y < n ==> out[y * 1024..y * 1024 + 1024] == RowBytes(texel, y, ATLAS_W)
  }

  lemma RowWritten(out: seq<Byte>, texel: Texels, n: nat)
    requires RowsWritten(out, texel, n)
    ensures RowsWritten(out + RowBytes(texel, n, ATLAS_W), texel, n + 1)
  {
    var after := out + RowBytes(texel, n, ATLAS_W);
    forall y | 0 <= y < n + 1
      ensures after[y * 1024..y * 1024 + 1024] == RowBytes(texel, y, ATLAS_W)
    {
      if y < n {
        assert after[y * 1024..y * 1024 + 1024] == out[y * 1024..y * 1024 + 1024];
      }
    }
  }

  /** The block map's rows at the top left, the height maps under them. */
  ghost predicate Packed(image: seq<Byte>, texel: Texels, visits: seq<seq<seq<Solid>>>) {
    && |image| == IMAGE_W * IMAGE_H * 4
    && (forall y :: 0 <= y < ATLAS_H ==> image[y * 2048..y * 2048 + 1024] == RowBytes(texel, y, ATLAS_W))
    && HeightsAre(image[ATLAS_H * 2048..], visits)
  }

  /** The image: the block map at the top left, the height maps under it. */
  method Atlas(texel: Texels, visits: seq<seq<seq<Solid>>>) returns (image: array<Byte>)
    requires |visits| == STRIPS
    ensures fresh(image) && Packed(image[..], texel, visits)
  {
    hide HeightsAre, RowBytes;
    image := new Byte[IMAGE_W * IMAGE_H * 4](_ => 0);
    var blocks := BlockAtlas(texel);
    for y := 0 to ATLAS_H
      invariant forall v :: 0 <= v < y ==> image[v * 2048..v * 2048 + 1024] == RowBytes(texel, v, ATLAS_W)
    {
      ghost var before := image[..];
      forall b | 0 <= b < 1024 {
        image[y * 2048 + b] := blocks[y * 1024 + b];
      }
      assert image[y * 2048..y * 2048 + 1024] == blocks[y * 1024..y * 1024 + 1024];
      forall v | 0 <= v < y
        ensures image[v * 2048..v * 2048 + 1024] == RowBytes(texel, v, ATLAS_W)
      {
        assert image[v * 2048..v * 2048 + 1024] == before[v * 2048..v * 2048 + 1024];
      }
    }
    var heights := Heights(visits);
    HeightsSize(heights, visits);
    ghost var before := image[..];
    var top := ATLAS_H * 2048;
    forall b | 0 <= b < |heights| {
      image[top + b] := heights[b];
    }
    assert image.Length == top + |heights|;
    assert forall b :: 0 <= b < |heights| ==> image[top + b] == heights[b];
    assert image[top..top + |heights|] == heights;
    assert image[top..] == image[top..top + |heights|];
    forall v | 0 <= v < ATLAS_H
      ensures image[v * 2048..v * 2048 + 1024] == RowBytes(texel, v, ATLAS_W)
    {
      assert image[v * 2048..v * 2048 + 1024] == before[v * 2048..v * 2048 + 1024];
    }
    assert forall v :: 0 <= v < ATLAS_H ==> image[..][v * 2048..v * 2048 + 1024] == image[v * 2048..v * 2048 + 1024];
    assert image[..][top..] == image[top..];
  }

  lemma HeightsSize(heights: seq<Byte>, visits: seq<seq<seq<Solid>>>)
    requires HeightsAre(heights, visits)
    ensures |heights| == IMAGE_W * IMAGE_H * 4 - ATLAS_H * 2048
  {
  }

  // ---- Main results: the shader reads what was written ----

  /** A block's texel is where the shader looks for it. */
  lemma BlockAtItsTexel(image: seq<Byte>, texel: Texels, visits: seq<seq<seq<Solid>>>, strip: nat, bx: nat, row: int,
                        k: nat)
    requires Packed(image, texel, visits)
    requires strip < STRIPS && bx < ATLAS_W && -BANK_ROW <= row <= BANK_ROW && k < 4
    ensures image[ImageAt(bx, BlockRow(strip, row), k)] == Channel(texel(strip, bx, row), k)
  {
    hide HeightsAre, RowBytes;
    var y := BlockRow(strip, row);
    assert y / ATLAS_ROWS == strip && y % ATLAS_ROWS - BANK_ROW == row;
    assert ImageAt(bx, y, k) == y * 2048 + (4 * bx + k);
    assert image[ImageAt(bx, y, k)] == image[y * 2048..y * 2048 + 1024][4 * bx + k];
    RowBytesAt(texel, y, ATLAS_W, bx, k);
  }

  /** A height cell is in the texel and channel the shader's `height_texel` names. */
  lemma HeightAtItsTexel(image: seq<Byte>, texel: Texels, visits: seq<seq<seq<Solid>>>, strip: nat, c: nat, j: nat)
    requires Packed(image, texel, visits) && strip < STRIPS && c < HEIGHT_COLS && j < HEIGHT_ROWS
    ensures image[ImageAt(c / 4, ATLAS_H + strip * HEIGHT_ROWS + j, c % 4)] == Roof(Visited(visits[strip]), c, j)
  {
    hide Roof, RowBytes;
    var at := ImageAt(c / 4, ATLAS_H + strip * HEIGHT_ROWS + j, c % 4);
    assert at == ATLAS_H * 2048 + HeightAt(strip, c, j);
    assert image[at] == image[ATLAS_H * 2048..][HeightAt(strip, c, j)];
  }

  /** No two texel channels share a byte, and no block's texel is a height's: blocks lie above row
      `ATLAS_H`, heights from it down. */
  lemma TexelsApart(x: nat, y: nat, k: nat, u: nat, v: nat, m: nat)
    requires x < IMAGE_W && y < IMAGE_H && k < 4 && u < IMAGE_W && v < IMAGE_H && m < 4
    ensures ImageAt(x, y, k) == ImageAt(u, v, m) <==> (x, y, k) == (u, v, m)
    ensures y < ATLAS_H <= v ==> ImageAt(x, y, k) < ImageAt(u, v, m)
  {
  }

  /** Nor do two blocks share a texel, nor two height cells. */
  lemma PlacesApart(strip: nat, row: int, strip': nat, row': int, c: nat, j: nat, c': nat, j': nat)
    requires strip < STRIPS && strip' < STRIPS && -BANK_ROW <= row <= BANK_ROW && -BANK_ROW <= row' <= BANK_ROW
    requires c < HEIGHT_COLS && c' < HEIGHT_COLS && j < HEIGHT_ROWS && j' < HEIGHT_ROWS
    ensures BlockRow(strip, row) == BlockRow(strip', row') <==> strip == strip' && row == row'
    ensures (c / 4, ATLAS_H + strip * HEIGHT_ROWS + j, c % 4) == (c' / 4, ATLAS_H + strip' * HEIGHT_ROWS + j', c' % 4)
       <==> strip == strip' && c == c' && j == j'
  {
  }
}
