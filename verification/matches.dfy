/** The first two steps of the match engine on the whole field: the union
    of the row scans and the column scans, and the clearing of the matched
    cells. */
module Matches {
  import opened Board
  import opened Runs

  predicate InField(p: Pos) {
    0 <= p.0 < ROWS && 0 <= p.1 < COLUMNS
  }

  /** Cell (y, x) lies in a run of three or more along its row or along its
      column. */
  predicate MatchedAt(g: Grid, y: int, x: int)
    requires WellFormed(g) && 0 <= y < ROWS && 0 <= x < COLUMNS
  {
    InRun(g[y], x) || InRun(Column(g, x), y)
  }

  /** Positions reported by scanning every row left to right. */
  function HorizontalMatches(g: Grid): (m: set<Pos>)
    requires WellFormed(g)
    ensures forall p :: p in m <==> InField(p) && InRun(g[p.0], p.1)
  {
    var m := set y, x | 0 <= y < ROWS && 0 <= x < COLUMNS && x in ScanLine(g[y]) :: (y, x);
    assert forall y :: 0 <= y < ROWS ==> ScanLine(g[y]) == RunCells(g[y]) by {
      forall y | 0 <= y < ROWS ensures ScanLine(g[y]) == RunCells(g[y]) {
        ScanLineCorrect(g[y]);
      }
    }
    m
  }

  /** Positions reported by scanning every column top to bottom. */
  function VerticalMatches(g: Grid): (m: set<Pos>)
    requires WellFormed(g)
    ensures forall p :: p in m <==> InField(p) && InRun(Column(g, p.1), p.0)
  {
    var m := set x, y | 0 <= x < COLUMNS && 0 <= y < ROWS && y in ScanLine(Column(g, x)) :: (y, x);
    assert forall x :: 0 <= x < COLUMNS ==> ScanLine(Column(g, x)) == RunCells(Column(g, x)) by {
      forall x | 0 <= x < COLUMNS ensures ScanLine(Column(g, x)) == RunCells(Column(g, x)) {
        ScanLineCorrect(Column(g, x));
      }
    }
    m
  }

  /** The matched set: exactly the cells lying in a run of three or more
      along their row or column. Each such cell holds a block, and a cell in
      both a row run and a column run appears once. */
  function MatchedPositions(g: Grid): (m: set<Pos>)
    requires WellFormed(g)
    ensures forall p :: p in m <==> InField(p) && MatchedAt(g, p.0, p.1)
    ensures forall p :: p in m ==> InField(p) && g[p.0][p.1] != Empty
  {
    var m := HorizontalMatches(g) + VerticalMatches(g);
    assert forall p :: p in m ==> g[p.0][p.1] != Empty by {
      forall p | p in m ensures g[p.0][p.1] != Empty {
        if InRun(g[p.0], p.1) {
          InRunFilled(g[p.0], p.1);
        } else {
          InRunFilled(Column(g, p.1), p.0);
        }
      }
    }
    m
  }

  /** Empties the given positions and keeps every other cell. */
  function ClearCells(g: Grid, m: set<Pos>): (r: Grid)
    requires WellFormed(g)
    ensures WellFormed(r)
    ensures forall y, x :: 0 <= y < ROWS && 0 <= x < COLUMNS ==>
      r[y][x] == (if (y, x) in m then Empty else g[y][x])
  {
    seq(ROWS, y requires 0 <= y < ROWS =>
      seq(COLUMNS, x requires 0 <= x < COLUMNS => if (y, x) in m then Empty else g[y][x]))
  }

  /** The positions holding a block. */
  function FilledCells(g: Grid): (s: set<Pos>)
    requires WellFormed(g)
    ensures forall p :: p in s <==> InField(p) && g[p.0][p.1] != Empty
  {
    set y, x | 0 <= y < ROWS && 0 <= x < COLUMNS && g[y][x] != Empty :: (y, x)
  }

  /** Clearing the matched set removes exactly |matched| blocks from the
      field, so ten points per matched cell is ten points per removed block. */
  lemma ClearRemovesMatchedBlocks(g: Grid)
    requires WellFormed(g)
    ensures FilledCells(ClearCells(g, MatchedPositions(g))) == FilledCells(g) - MatchedPositions(g)
    ensures |FilledCells(ClearCells(g, MatchedPositions(g)))| == |FilledCells(g)| - |MatchedPositions(g)|
  {
    var m := MatchedPositions(g);
    var before := FilledCells(g);
    var after := FilledCells(ClearCells(g, m));
    assert after == before - m;
    assert m <= before;
    assert before == (before - m) + m;
  }

  /** Every run of the field is cleared at once: after the matched cells are
      emptied no cell lies in a run of three any more. */
  lemma ClearLeavesNoRun(g: Grid)
    requires WellFormed(g)
    ensures MatchedPositions(ClearCells(g, MatchedPositions(g))) == {}
  {
    var c := ClearCells(g, MatchedPositions(g));
    forall y | 0 <= y < ROWS ensures forall i :: !InRun(c[y], i) {
      RowCleared(g, y);
    }
    forall x | 0 <= x < COLUMNS ensures forall i :: !InRun(Column(c, x), i) {
      ColumnCleared(g, x);
    }
    assert forall p :: p !in MatchedPositions(c);
  }

  /** Row y of the cleared field holds no run. */
  lemma RowCleared(g: Grid, y: int)
    requires WellFormed(g) && 0 <= y < ROWS
    ensures forall i :: !InRun(ClearCells(g, MatchedPositions(g))[y], i)
  {
    var m := MatchedPositions(g);
    var c := ClearCells(g, m);
    forall k | 0 <= k < COLUMNS && InRun(g[y], k) ensures c[y][k] == Empty {
      assert MatchedAt(g, y, k);
      assert (y, k) in m;
    }
    NoRunAfterClear(g[y], c[y]);
  }

  /** Column x of the cleared field holds no run. */
  lemma ColumnCleared(g: Grid, x: int)
    requires WellFormed(g) && 0 <= x < COLUMNS
    ensures forall i :: !InRun(Column(ClearCells(g, MatchedPositions(g)), x), i)
  {
    var m := MatchedPositions(g);
    var c := ClearCells(g, m);
    forall k | 0 <= k < ROWS && InRun(Column(g, x), k) ensures Column(c, x)[k] == Empty {
      assert MatchedAt(g, k, x);
      assert (k, x) in m;
      assert Column(c, x)[k] == c[k][x];
    }
    NoRunAfterClear(Column(g, x), Column(c, x));
  }

  /** A line whose run cells have all been emptied, and which is otherwise
      unchanged or emptied, has no run left. */
  lemma NoRunAfterClear(before: seq<Cell>, after: seq<Cell>)
    requires |before| == |after|
    requires forall k :: 0 <= k < |after| ==> after[k] == Empty || after[k] == before[k]
    requires forall k :: 0 <= k < |before| && InRun(before, k) ==> after[k] == Empty
    ensures forall i :: !InRun(after, i)
  {
    forall i | InRun(after, i) ensures false {
      var a := TripleOf(after, i);
      TripleSurvives(before, after, a);
      InRunFilled(after, a);
    }
  }

  /** The start of a window of three equal blocks containing cell i. */
  function TripleOf(line: seq<Cell>, i: int): (a: int)
    requires InRun(line, i)
    ensures Triple(line, a) && a <= i <= a + 2
  {
    if Triple(line, i - 2) then i - 2 else if Triple(line, i - 1) then i - 1 else i
  }

  /** A triple of blocks in the cleared line was a triple before clearing,
      since clearing only empties cells. */
  lemma TripleSurvives(before: seq<Cell>, after: seq<Cell>, a: int)
    requires |before| == |after|
    requires forall k :: 0 <= k < |after| ==> after[k] == Empty || after[k] == before[k]
    requires Triple(after, a)
    ensures Triple(before, a) && InRun(before, a) && InRun(after, a)
  {
    assert after[a + 1] != Empty && after[a + 2] != Empty && after[a] == after[a + 1];
  }
}
