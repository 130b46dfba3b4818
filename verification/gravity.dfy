/** Step three of the match engine: per-column gravity. Each column keeps
    its blocks in their top-to-bottom order and stacks them at the bottom;
    no block changes column. */
module Gravity {
  import opened Board

  /** The blocks of a column, top to bottom, with the empty cells dropped. */
  function Blocks(col: seq<Cell>): (s: seq<Cell>)
    ensures |s| <= |col|
    ensures forall i :: 0 <= i < |s| ==> s[i] != Empty
  {
    if col == [] then []
    else Blocks(col[..|col| - 1]) + (if col[|col| - 1] == Empty then [] else [col[|col| - 1]])
  }

  function Empties(n: nat): (s: seq<Cell>)
    ensures |s| == n && forall i :: 0 <= i < n ==> s[i] == Empty
  {
    seq(n, _ => Empty)
  }

  /** No empty cell lies below a block. */
  predicate Settled(col: seq<Cell>) {
    forall i, j :: 0 <= i < j < |col| && col[i] != Empty ==> col[j] != Empty
  }

  lemma {:induction false} BlocksAppend(a: seq<Cell>, b: seq<Cell>)
    ensures Blocks(a + b) == Blocks(a) + Blocks(b)
    decreases |b|
  {
    if b == [] {
      assert a + b == a;
    } else {
      var b' := b[..|b| - 1];
      assert (a + b)[..|a + b| - 1] == a + b';
      assert b[..|b| - 1] == b';
      BlocksAppend(a, b');
    }
  }

  lemma {:induction false} BlocksOfEmpties(n: nat)
    ensures Blocks(Empties(n)) == []
  {
    if n > 0 {
      assert Empties(n)[..n - 1] == Empties(n - 1);
      BlocksOfEmpties(n - 1);
    }
  }

  lemma {:induction false} BlocksOfBlocks(s: seq<Cell>)
    requires forall i :: 0 <= i < |s| ==> s[i] != Empty
    ensures Blocks(s) == s
  {
    if s != [] {
      BlocksOfBlocks(s[..|s| - 1]);
      assert s[..|s| - 1] + [s[|s| - 1]] == s;
    }
  }

  lemma EmptiesSnoc(n: nat)
    ensures Empties(n + 1) == Empties(n) + [Empty]
  {
  }

  /** One step of the multiset count, stated over plain sequences: appending
      a cell to a column appends it to the blocks or to the empties. */
  lemma MultisetSnoc(front: seq<Cell>, last: Cell, bf: seq<Cell>, ef: seq<Cell>, bc: seq<Cell>, ec: seq<Cell>)
    requires multiset(front) == multiset(bf) + multiset(ef)
    requires last == Empty ==> bc == bf && ec == ef + [Empty]
    requires last != Empty ==> bc == bf + [last] && ec == ef
    ensures multiset(front + [last]) == multiset(bc) + multiset(ec)
  {
  }

  /** A column holds the same multiset of cells as its blocks plus the right
      number of empty cells. */
  lemma {:induction false} BlocksMultiset(col: seq<Cell>)
    ensures multiset(col) == multiset(Blocks(col)) + multiset(Empties(|col| - |Blocks(col)|))
  {
    if col != [] {
      var front := col[..|col| - 1];
      var last := col[|col| - 1];
      BlocksMultiset(front);
      var k := |front| - |Blocks(front)|;
      EmptiesSnoc(k);
      assert col == front + [last];
      MultisetSnoc(front, last, Blocks(front), Empties(k), Blocks(col), Empties(|col| - |Blocks(col)|));
    }
  }

  /** A settled column is its empties followed by its blocks. */
  lemma {:induction false} SettledShape(col: seq<Cell>)
    requires Settled(col)
    ensures col == Empties(|col| - |Blocks(col)|) + Blocks(col)
  {
    if col != [] {
      var front := col[..|col| - 1];
      var last := col[|col| - 1];
      assert Settled(front);
      SettledShape(front);
      assert col == front + [last];
      if last == Empty {
        assert forall i :: 0 <= i < |front| ==> front[i] == Empty;
        BlocksOfEmpties(|front|);
        assert front == Empties(|front|);
        assert Empties(|front|) + [last] == Empties(|col|);
      }
    }
  }

  /** Empty cells followed by blocks form a settled column. */
  lemma EmptiesThenBlocks(n: nat, stack: seq<Cell>)
    requires forall i :: 0 <= i < |stack| ==> stack[i] != Empty
    ensures Settled(Empties(n) + stack)
  {
    var col := Empties(n) + stack;
    forall i, j | 0 <= i < j < |col| && col[i] != Empty
      ensures col[j] != Empty
    {
      assert i >= n;
      assert col[j] == stack[j - n];
    }
  }

  /** The column after gravity: the blocks, in their top-to-bottom order,
      stacked at the bottom, with empty cells above. */
  function Settle(col: seq<Cell>): (r: seq<Cell>)
    ensures |r| == |col|
    ensures Blocks(r) == Blocks(col)
    ensures Settled(r)
    ensures multiset(r) == multiset(col)
  {
    var stack := Blocks(col);
    var empties := Empties(|col| - |stack|);
    BlocksAppend(empties, stack);
    BlocksOfEmpties(|col| - |stack|);
    BlocksOfBlocks(stack);
    BlocksMultiset(col);
    EmptiesThenBlocks(|col| - |stack|, stack);
    assert multiset(empties + stack) == multiset(empties) + multiset(stack);
    empties + stack
  }

  /** Blocks and settledness determine a column: gravity is the only
      settled column with those blocks, so settling twice changes nothing. */
  lemma SettleUnique(col: seq<Cell>, r: seq<Cell>)
    requires |r| == |col| && Blocks(r) == Blocks(col) && Settled(r)
    ensures r == Settle(col)
  {
    SettledShape(r);
  }

  lemma SettleIdempotent(col: seq<Cell>)
    ensures Settle(Settle(col)) == Settle(col)
  {
    SettleUnique(Settle(col), Settle(col));
  }

  /** Gravity applied to every column of the field. */
  function GravityAll(g: Grid): (r: Grid)
    requires WellFormed(g)
    ensures WellFormed(r)
    ensures forall x :: 0 <= x < COLUMNS ==> Column(r, x) == Settle(Column(g, x))
  {
    var r := seq(ROWS, y requires 0 <= y < ROWS =>
      seq(COLUMNS, x requires 0 <= x < COLUMNS => Settle(Column(g, x))[y]));
    assert WellFormed(r);
    assert forall x :: 0 <= x < COLUMNS ==> Column(r, x) == Settle(Column(g, x)) by {
      forall x | 0 <= x < COLUMNS ensures Column(r, x) == Settle(Column(g, x)) {
        assert forall y :: 0 <= y < ROWS ==> Column(r, x)[y] == Settle(Column(g, x))[y];
      }
    }
    r
  }
}
