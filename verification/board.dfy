/** The playing field, the colour palette, the shape catalog and the falling
    piece of the block game, plus the random pre-seed of the bottom rows
    (with the random choices taken as parameters). */
module Board {

  /** Width and height of the field, in cells. */
  const COLUMNS: nat := 20
  const ROWS: nat := 20

  /** The start-up pre-seed only fills cells in this many bottom rows. */
  const SEED_ROWS: nat := 8

  /** The six block colours, in palette order. */
  datatype Color = Red | Green | Blue | Yellow | Magenta | Cyan

  const BLOCK_COLORS: seq<Color> := [Red, Green, Blue, Yellow, Magenta, Cyan]

  /** A field cell holds nothing or exactly one block of one colour. */
  datatype Cell = Empty | Filled(color: Color)

  type Row = seq<Cell>

  /** Indexed as `g[y][x]`; row 0 is the top of the field. */
  type Grid = seq<Row>

  /** A position in the field, written (y, x) like the match engine does. */
  type Pos = (int, int)

  predicate WellFormed(g: Grid) {
    |g| == ROWS && forall y :: 0 <= y < |g| ==> |g[y]| == COLUMNS
  }

  predicate InBounds(x: int, y: int) {
    0 <= x < COLUMNS && 0 <= y < ROWS
  }

  function EmptyRow(): (r: Row)
    ensures |r| == COLUMNS
    ensures forall x :: 0 <= x < |r| ==> r[x] == Empty
  {
    seq(COLUMNS, _ => Empty)
  }

  function EmptyGrid(): (g: Grid)
    ensures WellFormed(g)
    ensures forall y, x :: 0 <= y < ROWS && 0 <= x < COLUMNS ==> g[y][x] == Empty
  {
    seq(ROWS, _ => EmptyRow())
  }

  /** The grid with the one cell (x, y) replaced by `c`. */
  function SetCell(g: Grid, x: int, y: int, c: Cell): (r: Grid)
    requires WellFormed(g) && InBounds(x, y)
    ensures WellFormed(r)
    ensures r[y][x] == c
    ensures forall j, i :: 0 <= j < ROWS && 0 <= i < COLUMNS && (j != y || i != x) ==> r[j][i] == g[j][i]
  {
    g[y := g[y][x := c]]
  }

  /** Column x of the grid, read top to bottom. */
  function Column(g: Grid, x: int): (c: seq<Cell>)
    requires WellFormed(g) && 0 <= x < COLUMNS
    ensures |c| == ROWS
    ensures forall y :: 0 <= y < ROWS ==> c[y] == g[y][x]
  {
    seq(ROWS, y requires 0 <= y < ROWS => g[y][x])
  }

  /** A block offset (dx, dy) relative to the anchor of its piece. */
  type Offset = (int, int)

  /** The shape catalog: monomino, two dominoes, two trominoes, the square. */
  const SHAPES: seq<seq<Offset>> := [
    [(0, 0)],
    [(0, 0), (1, 0)],
    [(0, 0), (0, 1)],
    [(0, 0), (1, 0), (0, 1)],
    [(0, 0), (1, 0), (1, 1)],
    [(0, 0), (1, 0), (0, 1), (1, 1)]
  ]

  /** The falling piece: block offsets, anchor (x, y) and one colour. */
  datatype Piece = Piece(blocks: seq<Offset>, x: int, y: int, color: Color)

  /** The spawn anchor: the middle column of the top row. */
  const SPAWN_X: int := COLUMNS / 2
  const SPAWN_Y: int := 0

  function Translate(p: Piece, dx: int, dy: int): Piece {
    p.(x := p.x + dx, y := p.y + dy)
  }

  /** Block i of piece p sits on cell (x, y). */
  predicate BlockAt(p: Piece, i: int, x: int, y: int)
    requires 0 <= i < |p.blocks|
  {
    p.x + p.blocks[i].0 == x && p.y + p.blocks[i].1 == y
  }

  /** Some block with index at least `from` sits on cell (x, y). */
  predicate CoversFrom(p: Piece, from: nat, x: int, y: int) {
    exists i :: from <= i < |p.blocks| && BlockAt(p, i, x, y)
  }

  /** Some block of piece p sits on cell (x, y). */
  predicate Covers(p: Piece, x: int, y: int) {
    CoversFrom(p, 0, x, y)
  }

  lemma ShapeOffsets(k: nat, i: nat)
    requires k < |SHAPES| && i < |SHAPES[k]|
    ensures 0 <= SHAPES[k][i].0 <= 1 && 0 <= SHAPES[k][i].1 <= 1
  {
    if k == 0 {} else if k == 1 {} else if k == 2 {} else if k == 3 {} else if k == 4 {} else {}
  }

  /** A fresh piece at the spawn anchor, with the shape and colour picked
      by the caller's random choices. */
  function NewShape(shapeIndex: nat, colorIndex: nat): (p: Piece)
    requires shapeIndex < |SHAPES| && colorIndex < |BLOCK_COLORS|
    ensures p.blocks in SHAPES && p.color in BLOCK_COLORS
    ensures p.blocks == SHAPES[shapeIndex] && p.color == BLOCK_COLORS[colorIndex]
    ensures p.x == SPAWN_X && p.y == SPAWN_Y
    ensures Covers(p, SPAWN_X, SPAWN_Y)
    ensures forall i :: 0 <= i < |p.blocks| ==>
      InBounds(p.x + p.blocks[i].0, p.y + p.blocks[i].1) && p.y + p.blocks[i].1 < 2
  {
    var p := Piece(SHAPES[shapeIndex], SPAWN_X, SPAWN_Y, BLOCK_COLORS[colorIndex]);
    assert SHAPES[shapeIndex][0] == (0, 0) && BlockAt(p, 0, SPAWN_X, SPAWN_Y);
    forall i | 0 <= i < |p.blocks|
      ensures InBounds(p.x + p.blocks[i].0, p.y + p.blocks[i].1) && p.y + p.blocks[i].1 < 2
    {
      ShapeOffsets(shapeIndex, i);
    }
    p
  }

  /** One random pre-seed placement: a cell and the colour written there. */
  datatype Seed = Seed(x: int, y: int, color: Color)

  /** The ranges the pre-seed draws from: any column, one of the bottom rows. */
  predicate SeedInRange(s: Seed) {
    0 <= s.x < COLUMNS && ROWS - SEED_ROWS <= s.y < ROWS
  }

  predicate SeedAt(seeds: seq<Seed>, i: int, x: int, y: int)
    requires 0 <= i < |seeds|
  {
    seeds[i].x == x && seeds[i].y == y
  }

  /** Seed i is the last one that names its cell. */
  predicate LastSeedAt(seeds: seq<Seed>, i: int)
    requires 0 <= i < |seeds|
  {
    forall j :: i < j < |seeds| ==> !SeedAt(seeds, j, seeds[i].x, seeds[i].y)
  }

  predicate Seeded(seeds: seq<Seed>, x: int, y: int) {
    exists i :: 0 <= i < |seeds| && SeedAt(seeds, i, x, y)
  }

  /** Writes the seeds into the grid in order, so a later seed on the same
      cell overwrites an earlier one. */
  function PreSeed(g: Grid, seeds: seq<Seed>): (r: Grid)
    requires WellFormed(g)
    requires forall i :: 0 <= i < |seeds| ==> SeedInRange(seeds[i])
    ensures WellFormed(r)
    ensures forall y, x :: 0 <= y < ROWS && 0 <= x < COLUMNS && !Seeded(seeds, x, y) ==> r[y][x] == g[y][x]
    ensures forall i :: 0 <= i < |seeds| && SeedInRange(seeds[i]) && LastSeedAt(seeds, i) ==>
      r[seeds[i].y][seeds[i].x] == Filled(seeds[i].color)
    decreases |seeds|
  {
    if seeds == [] then g
    else
      var front := seeds[..|seeds| - 1];
      var s := seeds[|seeds| - 1];
      var prev := PreSeed(g, front);
      assert SeedInRange(seeds[|seeds| - 1]);
      UnseededStep(g, seeds, prev);
      LastSeedStep(seeds, prev);
      SetCell(prev, s.x, s.y, Filled(s.color))
  }

  /** The step of PreSeed for the cells no seed names: writing the last
      seed keeps them. */
  lemma UnseededStep(g: Grid, seeds: seq<Seed>, prev: Grid)
    requires WellFormed(g) && WellFormed(prev) && |seeds| > 0
    requires SeedInRange(seeds[|seeds| - 1])
    requires forall y, x :: 0 <= y < ROWS && 0 <= x < COLUMNS && !Seeded(seeds[..|seeds| - 1], x, y) ==>
      prev[y][x] == g[y][x]
    ensures var s := seeds[|seeds| - 1];
      forall y, x :: 0 <= y < ROWS && 0 <= x < COLUMNS && !Seeded(seeds, x, y) ==>
        SetCell(prev, s.x, s.y, Filled(s.color))[y][x] == g[y][x]
  {
    var front := seeds[..|seeds| - 1];
    var s := seeds[|seeds| - 1];
    var r := SetCell(prev, s.x, s.y, Filled(s.color));
    assert SeedAt(seeds, |seeds| - 1, s.x, s.y);
    forall y, x | 0 <= y < ROWS && 0 <= x < COLUMNS && !Seeded(seeds, x, y)
      ensures r[y][x] == g[y][x]
    {
      if Seeded(front, x, y) {
        var i :| 0 <= i < |front| && SeedAt(front, i, x, y);
        assert SeedAt(seeds, i, x, y);
      }
    }
  }

  /** The step of PreSeed for the seeded cells: after writing the last seed,
      every cell holds the colour of the last seed naming it. */
  lemma LastSeedStep(seeds: seq<Seed>, prev: Grid)
    requires WellFormed(prev) && |seeds| > 0
    requires SeedInRange(seeds[|seeds| - 1])
    requires var front := seeds[..|seeds| - 1];
      forall i :: 0 <= i < |front| && SeedInRange(front[i]) && LastSeedAt(front, i) ==>
        prev[front[i].y][front[i].x] == Filled(front[i].color)
    ensures var s := seeds[|seeds| - 1];
      var r := SetCell(prev, s.x, s.y, Filled(s.color));
      forall i :: 0 <= i < |seeds| && SeedInRange(seeds[i]) && LastSeedAt(seeds, i) ==>
        r[seeds[i].y][seeds[i].x] == Filled(seeds[i].color)
  {
    var front := seeds[..|seeds| - 1];
    var s := seeds[|seeds| - 1];
    var r := SetCell(prev, s.x, s.y, Filled(s.color));
    forall i | 0 <= i < |seeds| && SeedInRange(seeds[i]) && LastSeedAt(seeds, i)
      ensures r[seeds[i].y][seeds[i].x] == Filled(seeds[i].color)
    {
      if i < |front| {
        assert front[i] == seeds[i];
        assert LastSeedAt(front, i) by {
          forall j | i < j < |front| ensures !SeedAt(front, j, front[i].x, front[i].y) {
            assert !SeedAt(seeds, j, seeds[i].x, seeds[i].y);
          }
        }
        assert !SeedAt(seeds, |seeds| - 1, seeds[i].x, seeds[i].y);
      }
    }
  }

  /** The starting field: empty, then pre-seeded. A cell holds a block
      exactly when some seed names it, and then the last such seed's colour;
      the rows above the bottom eight stay empty. */
  function InitialGrid(seeds: seq<Seed>): (g: Grid)
    requires forall i :: 0 <= i < |seeds| ==> SeedInRange(seeds[i])
    ensures WellFormed(g)
    ensures forall y, x :: 0 <= y < ROWS - SEED_ROWS && 0 <= x < COLUMNS ==> g[y][x] == Empty
    ensures forall y, x :: 0 <= y < ROWS && 0 <= x < COLUMNS && !Seeded(seeds, x, y) ==> g[y][x] == Empty
    ensures forall i :: 0 <= i < |seeds| && SeedInRange(seeds[i]) && LastSeedAt(seeds, i) ==>
      g[seeds[i].y][seeds[i].x] == Filled(seeds[i].color)
  {
    var g := PreSeed(EmptyGrid(), seeds);
    assert forall y, x :: Seeded(seeds, x, y) ==> y >= ROWS - SEED_ROWS by {
      forall y, x | Seeded(seeds, x, y) ensures y >= ROWS - SEED_ROWS {
        var i :| 0 <= i < |seeds| && SeedAt(seeds, i, x, y);
        assert SeedInRange(seeds[i]);
      }
    }
    g
  }
}
