/** The collision check: may the falling piece, shifted by (dx, dy), stand
    on the field? */
module Collision {
  import opened Board

  /** (x, y) is inside the field and holds no block. */
  predicate Free(g: Grid, x: int, y: int)
    requires WellFormed(g)
  {
    InBounds(x, y) && g[y][x] == Empty
  }

  /** Block i of p, shifted by (dx, dy), lands on a free cell. */
  predicate BlockFits(g: Grid, p: Piece, i: int, dx: int, dy: int)
    requires WellFormed(g) && 0 <= i < |p.blocks|
  {
    Free(g, p.x + p.blocks[i].0 + dx, p.y + p.blocks[i].1 + dy)
  }

  /** The blocks from index `from` on, in order, stopping at the first one
      that leaves the field or hits a filled cell. */
  function FitsFrom(g: Grid, p: Piece, dx: int, dy: int, from: nat): (r: bool)
    requires WellFormed(g) && from <= |p.blocks|
    ensures r <==> forall i :: from <= i < |p.blocks| ==> BlockFits(g, p, i, dx, dy)
    decreases |p.blocks| - from
  {
    if from == |p.blocks| then true
    else
      var x := p.x + p.blocks[from].0 + dx;
      var y := p.y + p.blocks[from].1 + dy;
      if x < 0 || x >= COLUMNS || y < 0 || y >= ROWS || g[y][x] != Empty then
        assert !BlockFits(g, p, from, dx, dy); false
      else FitsFrom(g, p, dx, dy, from + 1)
  }

  /** True exactly when every block of p, shifted by (dx, dy), lies inside
      the field on an empty cell. */
  function CanMove(g: Grid, p: Piece, dx: int, dy: int): (r: bool)
    requires WellFormed(g)
    ensures r <==> forall i :: 0 <= i < |p.blocks| ==> BlockFits(g, p, i, dx, dy)
    ensures r ==> forall x, y :: Covers(Translate(p, dx, dy), x, y) ==> InBounds(x, y) && g[y][x] == Empty
  {
    var r := FitsFrom(g, p, dx, dy, 0);
    if r then
      assert forall x, y :: Covers(Translate(p, dx, dy), x, y) ==> InBounds(x, y) && g[y][x] == Empty by {
        forall x, y | Covers(Translate(p, dx, dy), x, y) ensures InBounds(x, y) && g[y][x] == Empty {
          var i :| 0 <= i < |p.blocks| && BlockAt(Translate(p, dx, dy), i, x, y);
          assert BlockFits(g, p, i, dx, dy);
        }
      }
      r
    else r
  }

  /** A move by (dx, dy) is allowed exactly when the translated piece fits
      where it stands. */
  lemma MoveIsPlacement(g: Grid, p: Piece, dx: int, dy: int)
    requires WellFormed(g)
    ensures CanMove(g, p, dx, dy) == CanMove(g, Translate(p, dx, dy), 0, 0)
  {
    forall i | 0 <= i < |p.blocks|
      ensures BlockFits(g, p, i, dx, dy) == BlockFits(g, Translate(p, dx, dy), i, 0, 0)
    {
    }
  }

  /** A piece with a block outside the field can never be placed. */
  lemma OutOfBoundsBlocked(g: Grid, p: Piece, dx: int, dy: int, i: int)
    requires WellFormed(g) && 0 <= i < |p.blocks|
    requires !InBounds(p.x + p.blocks[i].0 + dx, p.y + p.blocks[i].1 + dy)
    ensures !CanMove(g, p, dx, dy)
  {
    assert !BlockFits(g, p, i, dx, dy);
  }
}
