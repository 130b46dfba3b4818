/** Step four of the match engine: full rows are removed and replaced by
    empty rows at the top. */
module Rows {
  import opened Board

  /** Every cell of the row holds a block. */
  predicate Full(row: Row) {
    forall x :: 0 <= x < |row| ==> row[x] != Empty
  }

  /** Indices of the full rows from index `from` on, in ascending order. */
  function FullRowsFrom(g: Grid, from: nat): (r: seq<nat>)
    requires from <= |g|
    ensures forall k :: 0 <= k < |r| ==> from <= r[k] < |g| && Full(g[r[k]])
    ensures forall i :: from <= i < |g| && Full(g[i]) ==> i in r
    ensures forall k, l :: 0 <= k < l < |r| ==> r[k] < r[l]
    decreases |g| - from
  {
    if from == |g| then []
    else if Full(g[from]) then [from] + FullRowsFrom(g, from + 1)
    else FullRowsFrom(g, from + 1)
  }

  /** The full rows of the field, listed once, top to bottom. */
  function FullRows(g: Grid): (r: seq<nat>)
    ensures forall k :: 0 <= k < |r| ==> r[k] < |g| && Full(g[r[k]])
    ensures forall i :: 0 <= i < |g| && Full(g[i]) ==> i in r
    ensures forall k, l :: 0 <= k < l < |r| ==> r[k] < r[l]
  {
    FullRowsFrom(g, 0)
  }

  /** The as-written removal: for each listed index in turn, delete that row
      and insert an empty row at the top. */
  function DeleteInsert(g: Grid, rows: seq<nat>): (r: Grid)
    requires forall k :: 0 <= k < |rows| ==> rows[k] < |g|
    ensures |r| == |g|
    decreases |rows|
  {
    if rows == [] then g
    else
      var i := rows[0];
      DeleteInsert([EmptyRow()] + g[..i] + g[i + 1..], rows[1..])
  }

  /** The rows that are not full, in their original order. */
  function KeptRows(g: Grid): (s: seq<Row>)
    ensures forall k :: 0 <= k < |s| ==> s[k] in g && !Full(s[k])
  {
    if g == [] then []
    else KeptRows(g[..|g| - 1]) + (if Full(g[|g| - 1]) then [] else [g[|g| - 1]])
  }

  function CountFull(g: Grid): nat {
    if g == [] then 0
    else CountFull(g[..|g| - 1]) + (if Full(g[|g| - 1]) then 1 else 0)
  }

  function EmptyRows(k: nat): (s: seq<Row>)
    ensures |s| == k && forall i :: 0 <= i < k ==> s[i] == EmptyRow()
  {
    seq(k, _ => EmptyRow())
  }

  lemma {:induction false} KeptAndFull(g: Grid)
    ensures |KeptRows(g)| + CountFull(g) == |g|
  {
    if g != [] {
      KeptAndFull(g[..|g| - 1]);
    }
  }

  /** A field without full rows keeps all its rows. */
  lemma {:induction false} NoFullRows(g: Grid)
    requires forall i :: 0 <= i < |g| ==> !Full(g[i])
    ensures CountFull(g) == 0 && KeptRows(g) == g
  {
    if g != [] {
      NoFullRows(g[..|g| - 1]);
      assert g[..|g| - 1] + [g[|g| - 1]] == g;
    }
  }

  lemma {:induction false} CountFullRows(g: Grid, from: nat)
    requires from <= |g|
    ensures CountFull(g) == CountFull(g[..from]) + |FullRowsFrom(g, from)|
    decreases |g| - from
  {
    if from == |g| {
      assert g[..from] == g;
    } else {
      CountFullRows(g, from + 1);
      assert g[..from + 1][..from] == g[..from];
    }
  }

  /** The field once the full rows above index p have been handled: the
      empty rows made so far, then the kept rows above p, then the untouched
      rows from p on. */
  function Midway(g: Grid, p: nat): seq<Row>
    requires p <= |g|
  {
    EmptyRows(CountFull(g[..p])) + KeptRows(g[..p]) + g[p..]
  }

  lemma MidwayLength(g: Grid, p: nat)
    requires p <= |g|
    ensures |Midway(g, p)| == |g|
    ensures |EmptyRows(CountFull(g[..p])) + KeptRows(g[..p])| == p
  {
    KeptAndFull(g[..p]);
  }

  /** One step past a row that is not full moves it from the untouched part
      to the kept part. */
  lemma MidwayKeep(g: Grid, p: nat)
    requires p < |g| && !Full(g[p])
    ensures Midway(g, p + 1) == Midway(g, p)
  {
    var next := g[..p + 1];
    assert next[..|next| - 1] == g[..p];
    assert next[|next| - 1] == g[p];
    assert KeptRows(next) == KeptRows(g[..p]) + [g[p]];
    assert g[p..] == [g[p]] + g[p + 1..];
  }

  /** Deleting the full row p and inserting an empty row at the top is one
      step of the loop. */
  lemma MidwayFull(g: Grid, p: nat)
    requires p < |g| && Full(g[p])
    ensures p < |Midway(g, p)|
    ensures Midway(g, p + 1) == [EmptyRow()] + Midway(g, p)[..p] + Midway(g, p)[p + 1..]
  {
    MidwayLength(g, p);
    var c := CountFull(g[..p]);
    var kept := KeptRows(g[..p]);
    var cur := Midway(g, p);
    var next := g[..p + 1];
    assert next[..|next| - 1] == g[..p];
    assert next[|next| - 1] == g[p];
    assert CountFull(next) == c + 1;
    assert KeptRows(next) == kept;
    assert cur == (EmptyRows(c) + kept) + g[p..];
    assert cur[..p] == EmptyRows(c) + kept;
    assert cur[p + 1..] == g[p + 1..];
    assert [EmptyRow()] + EmptyRows(c) == EmptyRows(c + 1);
  }

  /** One iteration of the loop, at a full row or past a kept row, takes
      the midway state at p to the midway state at p + 1. */
  lemma LoopStep(g: Grid, p: nat)
    requires p < |g|
    ensures |Midway(g, p)| == |g| && |Midway(g, p + 1)| == |g|
    ensures DeleteInsert(Midway(g, p), FullRowsFrom(g, p)) == DeleteInsert(Midway(g, p + 1), FullRowsFrom(g, p + 1))
  {
    MidwayLength(g, p);
    MidwayLength(g, p + 1);
    var rest := FullRowsFrom(g, p + 1);
    if Full(g[p]) {
      assert FullRowsFrom(g, p) == [p] + rest;
      MidwayFull(g, p);
      var cur := Midway(g, p);
      assert ([p] + rest)[0] == p && ([p] + rest)[1..] == rest;
      assert DeleteInsert(cur, [p] + rest) == DeleteInsert([EmptyRow()] + cur[..p] + cur[p + 1..], rest);
    } else {
      assert FullRowsFrom(g, p) == rest;
      MidwayKeep(g, p);
    }
  }

  /** Invariant of the as-written loop: run from the state midway at p over
      the remaining full rows, it ends in the stable filter. */
  lemma {:induction false} DeleteInsertInvariant(g: Grid, p: nat)
    requires p <= |g|
    ensures |Midway(g, p)| == |g|
    ensures DeleteInsert(Midway(g, p), FullRowsFrom(g, p)) == EmptyRows(CountFull(g)) + KeptRows(g)
    decreases |g| - p
  {
    MidwayLength(g, p);
    if p == |g| {
      assert g[..p] == g;
      assert g[p..] == [];
    } else {
      LoopStep(g, p);
      DeleteInsertInvariant(g, p + 1);
    }
  }

  /** The delete-then-insert loop over the ascending list of full rows is a
      stable filter: the kept rows in their original order under as many
      empty rows as were removed. */
  lemma RemovalIsStableFilter(g: Grid)
    ensures DeleteInsert(g, FullRows(g)) == EmptyRows(|FullRows(g)|) + KeptRows(g)
  {
    assert g[..0] == [] && g[0..] == g;
    assert Midway(g, 0) == g;
    DeleteInsertInvariant(g, 0);
    CountFullRows(g, 0);
  }

  /** Full-row removal on the field: the result is a field of the same size
      whose top k rows are empty and whose other rows are the non-full rows
      in their original order, k being the number of full rows; no full row
      remains. */
  function RemoveFullRows(g: Grid): (r: Grid)
    requires WellFormed(g)
    ensures WellFormed(r)
    ensures r == EmptyRows(|FullRows(g)|) + KeptRows(g)
    ensures |FullRows(g)| == CountFull(g)
    ensures forall y :: 0 <= y < ROWS ==> !Full(r[y])
    ensures FullRows(g) == [] ==> r == g
  {
    var r := DeleteInsert(g, FullRows(g));
    RemovalIsStableFilter(g);
    CountFullRows(g, 0);
    assert g[..0] == [];
    assert !Full(EmptyRow()) by { assert EmptyRow()[0] == Empty; }
    assert forall y :: 0 <= y < ROWS ==> |r[y]| == COLUMNS && !Full(r[y]) by {
      forall y | 0 <= y < ROWS ensures |r[y]| == COLUMNS && !Full(r[y]) {
        var k := |FullRows(g)|;
        if y >= k {
          assert r[y] == KeptRows(g)[y - k];
        }
      }
    }
    r
  }
}
