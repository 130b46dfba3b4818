/** Run detection along one line of cells (a row read left to right or a
    column read top to bottom): the counting scan of the match engine, and
    an independent description of the cells it must find. */
module Runs {
  import opened Board

  /** Cell k continues the run of cell k - 1: both hold the same block. */
  predicate Joined(line: seq<Cell>, k: int) {
    0 < k < |line| && line[k] != Empty && line[k] == line[k - 1]
  }

  /** Cells a, a+1, a+2 hold three equal blocks. */
  predicate Triple(line: seq<Cell>, a: int) {
    0 <= a && a + 2 < |line| && Joined(line, a + 1) && Joined(line, a + 2)
  }

  /** Cell i lies in a run of three or more equal blocks: some window of
      three equal blocks contains it. */
  predicate InRun(line: seq<Cell>, i: int) {
    Triple(line, i - 2) || Triple(line, i - 1) || Triple(line, i)
  }

  /** The cells the scan must report: exactly those lying in a run of three
      or more. */
  function RunCells(line: seq<Cell>): set<int> {
    set i | 0 <= i < |line| && InRun(line, i)
  }

  /** The indices lo, lo+1, ..., hi-1, added one at a time. */
  function Range(lo: int, hi: int): (r: set<int>)
    ensures forall i :: i in r <==> lo <= i < hi
    decreases hi - lo
  {
    if lo >= hi then {} else {lo} + Range(lo + 1, hi)
  }

  /** The counting loop as written: `count` is the length of the run that
      ends at cell x - 1; when the run breaks at x (or the line ends) a run
      of three or more is added to the result. */
  function Scan(line: seq<Cell>, x: nat, count: nat, acc: set<int>): (r: set<int>)
    requires 1 <= x
    ensures acc <= r
    ensures forall i :: i in r && i !in acc ==> i < |line|
    decreases |line| - x
  {
    if x >= |line| then
      if count >= 3 then acc + Range(|line| - count, |line|) else acc
    else if line[x] != Empty && line[x] == line[x - 1] then
      Scan(line, x + 1, count + 1, acc)
    else
      Scan(line, x + 1, 1, if count >= 3 then acc + Range(x - count, x) else acc)
  }

  /** The scan of one whole line, starting with a run of length one at cell 0. */
  function ScanLine(line: seq<Cell>): set<int> {
    Scan(line, 1, 1, {})
  }

  /** A run lies between two breaks: every cell of [s, e) lies in a run of
      three or more exactly when the segment is at least three long. */
  lemma {:induction false} SegmentRuns(line: seq<Cell>, s: int, e: int, i: int)
    requires 0 <= s <= i < e <= |line|
    requires forall k :: s < k < e ==> Joined(line, k)
    requires !Joined(line, s) && !Joined(line, e)
    ensures InRun(line, i) <==> e - s >= 3
  {
    if e - s >= 3 {
      if i + 2 < e {
        assert Joined(line, i + 1) && Joined(line, i + 2);
        assert Triple(line, i);
      } else if i + 1 < e {
        assert Joined(line, i) && Joined(line, i + 1);
        assert Triple(line, i - 1);
      } else {
        assert Joined(line, i - 1) && Joined(line, i);
        assert Triple(line, i - 2);
      }
    } else {
      forall a | i - 2 <= a <= i ensures !Triple(line, a) {
        if a < s {
          assert a < s <= a + 2;
          if s == a + 1 { assert !Joined(line, a + 1); } else { assert !Joined(line, a + 2); }
        } else {
          assert a + 2 >= e;
          if e == a + 1 { assert !Joined(line, a + 1); } else { assert !Joined(line, a + 2); }
        }
      }
    }
  }

  /** The run [x - count, x) just closed is added exactly when its cells are
      run cells. */
  lemma {:induction false} CloseRun(line: seq<Cell>, x: int, count: int, acc: set<int>)
    requires 1 <= count <= x <= |line|
    requires forall k :: x - count < k < x ==> Joined(line, k)
    requires !Joined(line, x - count) && !Joined(line, x)
    requires acc == set i | 0 <= i < x - count && InRun(line, i)
    ensures (if count >= 3 then acc + Range(x - count, x) else acc)
      == set i | 0 <= i < x && InRun(line, i)
  {
    var lhs := if count >= 3 then acc + Range(x - count, x) else acc;
    forall i | x - count <= i < x ensures InRun(line, i) <==> count >= 3 {
      SegmentRuns(line, x - count, x, i);
    }
    assert forall i :: i in lhs <==> 0 <= i < x && InRun(line, i);
  }

  /** Loop invariant of the scan: the result is the set of run cells when
      the current run [x - count, x) starts at a break and the cells before
      it have been reported exactly. */
  lemma {:induction false} ScanInvariant(line: seq<Cell>, x: nat, count: nat, acc: set<int>)
    requires 1 <= x <= |line|
    requires 1 <= count <= x
    requires forall k :: x - count < k < x ==> Joined(line, k)
    requires !Joined(line, x - count)
    requires acc == set i | 0 <= i < x - count && InRun(line, i)
    ensures Scan(line, x, count, acc) == RunCells(line)
    decreases |line| - x
  {
    if x == |line| {
      CloseRun(line, x, count, acc);
    } else if line[x] != Empty && line[x] == line[x - 1] {
      assert Joined(line, x);
      ScanInvariant(line, x + 1, count + 1, acc);
    } else {
      assert !Joined(line, x);
      CloseRun(line, x, count, acc);
      ScanInvariant(line, x + 1, 1, if count >= 3 then acc + Range(x - count, x) else acc);
    }
  }

  /** The scan reports exactly the cells lying in a run of three or more
      equal blocks, including runs that reach the end of the line. */
  lemma {:induction false} ScanLineCorrect(line: seq<Cell>)
    ensures ScanLine(line) == RunCells(line)
  {
    if |line| == 0 {
      assert RunCells(line) == {};
    } else {
      assert (set i | 0 <= i < 0 && InRun(line, i)) == {};
      ScanInvariant(line, 1, 1, {});
    }
  }

  /** A run cell always holds a block. */
  lemma InRunFilled(line: seq<Cell>, i: int)
    requires 0 <= i < |line| && InRun(line, i)
    ensures line[i] != Empty
  {
    if Triple(line, i - 2) {
      assert Joined(line, i);
    } else if Triple(line, i - 1) {
      assert Joined(line, i);
    } else {
      assert Joined(line, i + 1);
    }
  }
}
