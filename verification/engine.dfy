/** The match/clear engine run after every lock: match scan, clearing and
    scoring, gravity when something matched, then full-row removal. */
module Engine {
  import opened Board
  import opened Runs
  import opened Matches
  import opened Gravity
  import opened Rows

  /** Points per matched cell and per removed full row. */
  const MATCH_POINTS: nat := 10
  const ROW_POINTS: nat := 100

  datatype Outcome = Outcome(grid: Grid, score: nat)

  /** Steps one to three: the matched cells are emptied and, only when at
      least one cell matched, every column settles. Blocks never change
      column, and each column keeps its remaining blocks in order. */
  function Compacted(g: Grid): (r: Grid)
    requires WellFormed(g)
    ensures WellFormed(r)
    ensures MatchedPositions(g) == {} ==> r == g
    ensures forall x :: 0 <= x < COLUMNS ==>
      Blocks(Column(r, x)) == Blocks(Column(ClearCells(g, MatchedPositions(g)), x))
    ensures MatchedPositions(g) != {} ==> forall x :: 0 <= x < COLUMNS ==> Settled(Column(r, x))
  {
    var m := MatchedPositions(g);
    var cleared := ClearCells(g, m);
    if m != {} then GravityAll(cleared)
    else
      assert forall y :: 0 <= y < ROWS ==> cleared[y] == g[y];
      cleared
  }

  /** The engine as a whole. The score grows by ten per matched cell and a
      hundred per full row found after compaction; the result is a field of
      the same size that holds no full row, whose top rows are the empty rows
      that replaced the removed ones and whose other rows are the non-full
      rows of the compacted field in order. */
  function ClearRowsAndMatches(g: Grid, score: nat): (r: Outcome)
    requires WellFormed(g)
    ensures WellFormed(r.grid)
    ensures r.score == score + MATCH_POINTS * |MatchedPositions(g)| + ROW_POINTS * CountFull(Compacted(g))
    ensures r.grid == EmptyRows(CountFull(Compacted(g))) + KeptRows(Compacted(g))
    ensures forall y :: 0 <= y < ROWS ==> !Full(r.grid[y])
    ensures CountFull(Compacted(g)) == 0 ==> r.grid == Compacted(g)
  {
    var m := MatchedPositions(g);
    var c := Compacted(g);
    var full := FullRows(c);
    Outcome(RemoveFullRows(c), score + |m| * MATCH_POINTS + |full| * ROW_POINTS)
  }

  /** A field with no run and no full row passes through the engine
      untouched. */
  lemma QuietFieldUnchanged(g: Grid, score: nat)
    requires WellFormed(g)
    requires forall y, x :: 0 <= y < ROWS && 0 <= x < COLUMNS ==> !MatchedAt(g, y, x)
    requires forall y :: 0 <= y < ROWS ==> !Full(g[y])
    ensures ClearRowsAndMatches(g, score) == Outcome(g, score)
  {
    assert forall p :: InField(p) ==> !MatchedAt(g, p.0, p.1);
    assert MatchedPositions(g) == {};
    NoFullRows(g);
  }

  /** Column 0 of the field below: a red block, three blue ones, two red ones,
      at the bottom; every other cell is empty. */
  function CascadeColumn(): (c: seq<Cell>)
    ensures |c| == ROWS
  {
    Empties(14) + [Filled(Red), Filled(Blue), Filled(Blue), Filled(Blue), Filled(Red), Filled(Red)]
  }

  function CascadeField(): (g: Grid)
    ensures WellFormed(g)
  {
    seq(ROWS, y requires 0 <= y < ROWS => seq(COLUMNS, x => if x == 0 then CascadeColumn()[y] else Empty))
  }

  const CascadeTail: seq<Cell> := [Filled(Red), Empty, Empty, Empty, Filled(Red), Filled(Red)]

  /** In column 0 exactly the three blue cells lie in a run. */
  lemma CascadeColumnRuns()
    ensures forall y :: 0 <= y < ROWS ==> (InRun(CascadeColumn(), y) <==> 15 <= y < 18)
  {
    var col := CascadeColumn();
    assert Triple(col, 15);
    forall y | 0 <= y < ROWS && !(15 <= y < 18) ensures !InRun(col, y) {
      assert !Joined(col, 15) && !Joined(col, 18);
      if y < 15 {
        assert forall k :: 0 < k < 15 ==> !Joined(col, k);
      }
    }
  }

  /** No row of the cascade field has a run: column 1 is empty. */
  lemma CascadeRowsQuiet(y: int, x: int)
    requires 0 <= y < ROWS && 0 <= x < COLUMNS
    ensures !InRun(CascadeField()[y], x)
  {
    var row := CascadeField()[y];
    assert row[1] == Empty;
    assert forall k :: 0 < k < |row| ==> !Joined(row, k) by {
      forall k | 0 < k < |row| ensures !Joined(row, k) {
        if k > 1 { assert row[k] == Empty; }
      }
    }
  }

  /** The scan of the cascade field matches the blue run, and in column 0
      nothing else. */
  lemma CascadeMatches(g: Grid)
    requires g == CascadeField()
    ensures WellFormed(g)
    ensures forall y :: 0 <= y < ROWS ==> ((y, 0) in MatchedPositions(g) <==> 15 <= y < 18)
  {
    assert Column(g, 0) == CascadeColumn();
    CascadeColumnRuns();
    forall y | 0 <= y < ROWS ensures MatchedAt(g, y, 0) <==> 15 <= y < 18 {
      CascadeRowsQuiet(y, 0);
    }
  }

  /** Column 0 after clearing: the blue run is gone. */
  lemma CascadeCleared(g: Grid, m: set<Pos>)
    requires g == CascadeField()
    requires forall y :: 0 <= y < ROWS ==> ((y, 0) in m <==> 15 <= y < 18)
    ensures Column(ClearCells(g, m), 0) == Empties(14) + CascadeTail
  {
    var cleared := ClearCells(g, m);
    var cc := Column(cleared, 0);
    var want := Empties(14) + CascadeTail;
    forall y | 0 <= y < ROWS ensures cc[y] == want[y] {
      assert cc[y] == cleared[y][0];
      if !(15 <= y < 18) {
        assert cleared[y][0] == g[y][0] == CascadeColumn()[y];
      }
    }
  }

  lemma CascadeTailBlocks()
    ensures Blocks(Empties(14) + CascadeTail) == [Filled(Red), Filled(Red), Filled(Red)]
  {
    var t := CascadeTail;
    BlocksAppend(Empties(14), t);
    BlocksOfEmpties(14);
    assert Blocks([]) == [];
    assert Blocks(t[..1]) == [Filled(Red)] by { assert t[..1][..0] == []; }
    assert Blocks(t[..2]) == [Filled(Red)] by { assert t[..2][..1] == t[..1]; }
    assert Blocks(t[..3]) == [Filled(Red)] by { assert t[..3][..2] == t[..2]; }
    assert Blocks(t[..4]) == [Filled(Red)] by { assert t[..4][..3] == t[..3]; }
    assert Blocks(t[..5]) == [Filled(Red), Filled(Red)] by { assert t[..5][..4] == t[..4]; }
    assert Blocks(t) == [Filled(Red), Filled(Red), Filled(Red)] by { assert t[..5] == t[..|t| - 1]; }
  }

  /** Column 1 of the cascade field is empty, and stays empty when the
      matched cells are cleared. */
  lemma CascadeColumnOneCleared(g: Grid)
    requires g == CascadeField()
    ensures Column(ClearCells(g, MatchedPositions(g)), 1) == Empties(ROWS)
  {
    var cleared := ClearCells(g, MatchedPositions(g));
    assert forall k :: 0 <= k < ROWS ==> Column(cleared, 1)[k] == Empty;
  }

  /** Column 1 stays empty through the engine, so no row is ever full. */
  lemma CascadeNoFullRow(g: Grid, c: Grid)
    requires g == CascadeField() && c == Compacted(g)
    ensures forall y :: 0 <= y < ROWS ==> !Full(c[y])
  {
    CascadeColumnOneCleared(g);
    BlocksOfEmpties(ROWS);
    var c1 := Column(c, 1);
    assert Blocks(c1) == [];
    CascadeMatches(g);
    assert (16, 0) in MatchedPositions(g);
    assert Settled(c1);
    SettledShape(c1);
    forall y | 0 <= y < ROWS ensures !Full(c[y]) {
      assert c1[y] == Empty;
    }
  }

  /** Column 0 after the engine's gravity step: three red blocks at the
      bottom. */
  lemma CascadeSettled(g: Grid, c: Grid)
    requires g == CascadeField() && c == Compacted(g)
    ensures Column(c, 0) == Empties(17) + [Filled(Red), Filled(Red), Filled(Red)]
  {
    var m := MatchedPositions(g);
    CascadeMatches(g);
    assert (16, 0) in m;
    CascadeCleared(g, m);
    CascadeTailBlocks();
    var settled := Column(c, 0);
    assert Blocks(settled) == [Filled(Red), Filled(Red), Filled(Red)];
    SettledShape(settled);
  }

  /** The cascade field has no full row after compaction, so the engine
      returns the compacted field. */
  lemma CascadeResult(g: Grid)
    requires g == CascadeField()
    ensures WellFormed(g)
    ensures ClearRowsAndMatches(g, 0).grid == Compacted(g)
  {
    var c := Compacted(g);
    CascadeNoFullRow(g, c);
    NoFullRows(c);
  }

  /** No cascade: the engine scans once, so the gravity step can bring
      three equal blocks together that stay on the field. Clearing the blue
      run drops the top red block onto the two below it. */
  lemma NoCascade(g: Grid)
    requires g == CascadeField()
    ensures WellFormed(g)
    ensures MatchedPositions(g) != {}
    ensures MatchedPositions(ClearRowsAndMatches(g, 0).grid) != {}
  {
    assert (16, 0) in MatchedPositions(g) by { CascadeMatches(g); }
    var r := ClearRowsAndMatches(g, 0).grid;
    CascadeResult(g);
    CascadeSettled(g, r);
    RedStackMatches(r);
  }

  /** Three red blocks at the bottom of column 0 are a run. */
  lemma RedStackMatches(r: Grid)
    requires WellFormed(r)
    requires Column(r, 0) == Empties(17) + [Filled(Red), Filled(Red), Filled(Red)]
    ensures (18, 0) in MatchedPositions(r)
  {
    assert Triple(Column(r, 0), 17);
    assert MatchedAt(r, 18, 0);
  }
}
