/** Locking: the landed piece's blocks are written into the field. */
module Lock {
  import opened Board

  /** Writes blocks `from` onwards in order, skipping cells outside the field. */
  function StampFrom(g: Grid, p: Piece, from: nat): (r: Grid)
    requires WellFormed(g) && from <= |p.blocks|
    ensures WellFormed(r)
    ensures forall y, x :: 0 <= y < ROWS && 0 <= x < COLUMNS ==>
      r[y][x] == (if CoversFrom(p, from, x, y) then Filled(p.color) else g[y][x])
    decreases |p.blocks| - from
  {
    if from == |p.blocks| then g
    else
      var x := p.x + p.blocks[from].0;
      var y := p.y + p.blocks[from].1;
      var g' := if 0 <= x < COLUMNS && 0 <= y < ROWS then SetCell(g, x, y, Filled(p.color)) else g;
      var r := StampFrom(g', p, from + 1);
      assert BlockAt(p, from, x, y);
      assert forall j, i :: CoversFrom(p, from, i, j) <==> (i == x && j == y) || CoversFrom(p, from + 1, i, j) by {
        forall j, i ensures CoversFrom(p, from, i, j) <==> (i == x && j == y) || CoversFrom(p, from + 1, i, j) {
          if CoversFrom(p, from, i, j) {
            var k :| from <= k < |p.blocks| && BlockAt(p, k, i, j);
            if k > from { assert CoversFrom(p, from + 1, i, j); }
          }
          if CoversFrom(p, from + 1, i, j) {
            var k :| from + 1 <= k < |p.blocks| && BlockAt(p, k, i, j);
          }
        }
      }
      r
  }

  /** The field after locking p: each in-field cell under a block of p now
      holds p's colour; every other cell, and every block outside the field,
      leaves the field as it was. */
  function LockShape(g: Grid, p: Piece): (r: Grid)
    requires WellFormed(g)
    ensures WellFormed(r)
    ensures forall y, x :: 0 <= y < ROWS && 0 <= x < COLUMNS ==>
      r[y][x] == (if Covers(p, x, y) then Filled(p.color) else g[y][x])
  {
    StampFrom(g, p, 0)
  }
}
