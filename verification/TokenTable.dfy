/**
  Why the ring cannot keep two messages. If no message is ever lost, the values the processes take line up
  in a table: row `i` is process `i`, and each cell follows from the cell above it and the one to its left;
  the first row follows from the last one, `k` columns earlier, where `k` is the number of messages.
  Such a table with 2 <= k <= number of processes cannot have many columns.
 */
module TokenTable {
  import opened TokenRing

  type Rows = seq<seq<Val>>

  predicate Acts(i: nat, v: Val, x: Val, y: Val) {
    Enabled(i, v, x) && y == Act(i, v, x)
  }

  /** Rows of `h + 1` cells. */
  predicate Sized(u: Rows, h: nat) {
    |u| >= 1 && forall i :: 0 <= i < |u| ==> |u[i]| == h + 1
  }

  predicate CellOk(u: Rows, h: nat, i: nat, n: nat)
    requires Sized(u, h) && 1 <= i < |u| && 1 <= n <= h
  {
    Acts(i, u[i - 1][n], u[i][n - 1], u[i][n])
  }

  predicate FirstOk(u: Rows, k: nat, h: nat, n: nat)
    requires Sized(u, h) && k < n <= h
  {
    Acts(0, u[|u| - 1][n - k], u[0][n - 1], u[0][n])
  }

  predicate Table(u: Rows, k: nat, h: nat) {
    && Sized(u, h)
    && (forall i, n :: 1 <= i < |u| && 1 <= n <= h ==> CellOk(u, h, i, n))
    && (forall n :: k < n <= h ==> FirstOk(u, k, h, n))
  }

  // ---------------------------------------------------------------- the first row

  /** High values are passed on as high values, low ones as low ones. */
  lemma {:induction false} HighPasses(u: Rows, k: nat, h: nat, i: nat, n: nat)
    requires Table(u, k, h) && i < |u| && 1 <= n <= h
    ensures u[i][n] > 1 <==> u[0][n] > 1
  {
    if i > 0 {
      HighPasses(u, k, h, i - 1, n);
      assert CellOk(u, h, i, n);
    }
  }

  /** Process 0 goes 0, perhaps 1, then 2; it returns to 0 when a high value has gone round. */
  lemma FirstRow(u: Rows, k: nat, h: nat, n: nat)
    requires Table(u, k, h) && k < n <= h
    ensures u[0][n] <= 2
    ensures u[0][n] == 0 <==> u[0][n - 1] > 1
    ensures u[0][n] == 1 ==> u[0][n - 1] == 0
    ensures u[0][n] == 0 <==> u[0][n - k] > 1
  {
    assert FirstOk(u, k, h, n);
    HighPasses(u, k, h, |u| - 1, n - k);
  }

  /** The columns in which process 0 is at 2 repeat with period `k - 1`. */
  lemma Periodic(u: Rows, k: nat, h: nat, n: nat)
    requires Table(u, k, h) && 1 <= k && 2 * k <= n < h
    ensures u[0][n] == 2 <==> u[0][n - (k - 1)] == 2
  {
    FirstRow(u, k, h, n);
    FirstRow(u, k, h, n + 1);
    FirstRow(u, k, h, n + 1 - k);
  }

  // ---------------------------------------------------------------- columns

  /** 2 in the first `a` rows, then 3, then 4. */
  predicate HighCol(u: Rows, h: nat, n: nat, a: nat) {
    && Sized(u, h) && n <= h && 1 <= a <= |u|
    && forall i :: 0 <= i < |u| ==> u[i][n] == if i < a then 2 else if i == a then 3 else 4
  }

  /** 0 in the first `b` rows, then 1. */
  predicate LowCol(u: Rows, h: nat, n: nat, b: nat) {
    && Sized(u, h) && n <= h && b <= |u|
    && forall i :: 0 <= i < |u| ==> u[i][n] == if i < b then 0 else 1
  }

  lemma {:induction false} HighUpTo(u: Rows, k: nat, h: nat, n: nat, m: nat) returns (a: nat)
    requires Table(u, k, h) && 1 <= n <= h && u[0][n] == 2 && 1 <= m <= |u|
    ensures 1 <= a <= m
    ensures forall i :: 0 <= i < m ==> u[i][n] == if i < a then 2 else if i == a then 3 else 4
  {
    if m == 1 {
      return 1;
    }
    a := HighUpTo(u, k, h, n, m - 1);
    assert CellOk(u, h, m - 1, n);
    if a == m - 1 && u[m - 1][n] == 2 {
      a := m;
    }
  }

  lemma {:induction false} LowCells(u: Rows, k: nat, h: nat, n: nat, a: nat, i: nat)
    requires Table(u, k, h) && n < h && HighCol(u, h, n, a) && u[0][n + 1] == 0 && i < |u|
    ensures u[i][n + 1] == if i < a + 1 then 0 else 1
  {
    if i > 0 {
      LowCells(u, k, h, n, a, i - 1);
      assert CellOk(u, h, i, n + 1);
    }
  }

  lemma {:induction false} HighCells(u: Rows, k: nat, h: nat, n: nat, b: nat, i: nat)
    requires Table(u, k, h) && n < h && LowCol(u, h, n, b) && u[0][n + 1] == 2 && i < |u|
    ensures var a := if b == 0 then 1 else b;
            u[i][n + 1] == if i < a then 2 else if i == a then 3 else 4
  {
    if i > 0 {
      HighCells(u, k, h, n, b, i - 1);
      assert CellOk(u, h, i, n + 1);
    }
  }

  /** A 1 gets past a row only if that row is at 0. */
  lemma {:induction false} OneCells(u: Rows, k: nat, h: nat, n: nat, b: nat, i: nat)
    requires Table(u, k, h) && n < h && LowCol(u, h, n, b) && b >= 1 && u[0][n + 1] == 1 && i < |u|
    ensures u[i][n + 1] == 1 && i < b
  {
    if i > 0 {
      OneCells(u, k, h, n, b, i - 1);
      assert CellOk(u, h, i, n + 1);
    }
  }

  function NextRow(u: Rows, a: nat): nat {
    if a + 1 < |u| then a + 1 else |u|
  }

  /** Process 0 at 2 with the ones up to row `a`: it sends 0 and then 2, moving the 3 down one row, or,
      when no 4 is left, 0, 1 and 2, bringing the 3 back to row 1. */
  lemma NextBlock(u: Rows, k: nat, h: nat, n: nat, a: nat)
    requires Table(u, k, h) && k < n && n + 3 <= h && HighCol(u, h, n, a)
    ensures u[0][n + 1] == 0 && LowCol(u, h, n + 1, NextRow(u, a))
    ensures u[0][n + 2] == 1 || u[0][n + 2] == 2
    ensures u[0][n + 2] == 2 ==> HighCol(u, h, n + 2, NextRow(u, a))
    ensures u[0][n + 2] == 1 ==> a >= |u| - 1 && HighCol(u, h, n + 3, 1)
  {
    hide Table, FirstOk, CellOk;
    FirstRow(u, k, h, n + 1);
    forall i | 0 <= i < |u| ensures u[i][n + 1] == if i < NextRow(u, a) then 0 else 1 {
      LowCells(u, k, h, n, a, i);
    }
    FirstRow(u, k, h, n + 2);
    if u[0][n + 2] == 2 {
      Raised(u, k, h, n + 1, NextRow(u, a));
    } else {
      AllOnes(u, k, h, n + 1, NextRow(u, a));
      FirstRow(u, k, h, n + 3);
      Raised(u, k, h, n + 2, 0);
    }
  }

  lemma Raised(u: Rows, k: nat, h: nat, n: nat, b: nat)
    requires Table(u, k, h) && n < h && LowCol(u, h, n, b) && u[0][n + 1] == 2
    ensures HighCol(u, h, n + 1, if b == 0 then 1 else b)
  {
    hide Table, CellOk;
    forall i | 0 <= i < |u|
      ensures var a := if b == 0 then 1 else b; u[i][n + 1] == if i < a then 2 else if i == a then 3 else 4
    {
      HighCells(u, k, h, n, b, i);
    }
  }

  lemma AllOnes(u: Rows, k: nat, h: nat, n: nat, b: nat)
    requires Table(u, k, h) && n < h && LowCol(u, h, n, b) && b >= 1 && u[0][n + 1] == 1
    ensures b == |u| && LowCol(u, h, n + 1, 0)
  {
    hide Table, CellOk;
    OneCells(u, k, h, n, b, |u| - 1);
    forall i | 0 <= i < |u| ensures u[i][n + 1] == 1 {
      OneCells(u, k, h, n, b, i);
    }
  }

  /** With no 4 left, process 0 cannot have sent 0 and then 2: the 0 would come back and lose the 2. */
  lemma ShortBlockNeedsFour(u: Rows, k: nat, h: nat, n: nat, a: nat)
    requires Table(u, k, h) && k < n && n + 3 <= h && n + 2 + k <= h && HighCol(u, h, n, a) && u[0][n + 2] == 2
    ensures a < |u| - 1
  {
    NextBlock(u, k, h, n, a);
    assert FirstOk(u, k, h, n + 1 + k);
    assert FirstOk(u, k, h, n + 2 + k);
  }

  // ---------------------------------------------------------------- long blocks

  /** A long block, 0 1 2, comes within `|u|` blocks. */
  lemma {:induction false} LongBlock(u: Rows, k: nat, h: nat, n: nat, a: nat) returns (p: nat)
    requires Table(u, k, h) && k < n && HighCol(u, h, n, a) && n + 2 * (|u| - a) + k + 3 <= h
    ensures n <= p <= n + 2 * (|u| - a)
    ensures u[0][p] == 2 && u[0][p + 1] == 0 && u[0][p + 2] == 1 && HighCol(u, h, p + 3, 1)
    decreases |u| - a
  {
    NextBlock(u, k, h, n, a);
    if u[0][n + 2] == 1 {
      return n;
    }
    ShortBlockNeedsFour(u, k, h, n, a);
    p := LongBlock(u, k, h, n + 2, a + 1);
  }

  /** After a long block come `|u| - 2` short ones. */
  lemma {:induction false} ShortBlocks(u: Rows, k: nat, h: nat, n: nat, j: nat)
    requires Table(u, k, h) && k < n && HighCol(u, h, n, 1) && j + 2 <= |u| && n + 2 * j + 1 <= h
    ensures HighCol(u, h, n + 2 * j, 1 + j)
  {
    if j > 0 {
      ShortBlocks(u, k, h, n, j - 1);
      NextBlock(u, k, h, n + 2 * (j - 1), j);
    }
  }

  lemma FindTwo(u: Rows, k: nat, h: nat, from: nat) returns (n: nat)
    requires Table(u, k, h) && k < from && from + 2 <= h
    ensures from <= n <= from + 2 && u[0][n] == 2
  {
    FirstRow(u, k, h, from);
    FirstRow(u, k, h, from + 1);
    FirstRow(u, k, h, from + 2);
    n := if u[0][from] == 2 then from else if u[0][from + 1] == 2 then from + 1 else from + 2;
  }

  /** A long block at `p` and one at `q`, less than a ring later, exclude each other. */
  lemma LongBlocksApart(u: Rows, k: nat, h: nat, p: nat, q: nat)
    requires Table(u, k, h) && k < p < q < p + |u| && q + 3 <= h
    requires u[0][p + 1] == 0 && u[0][p + 2] == 1 && HighCol(u, h, p + 3, 1) && u[0][q] == 2
    ensures u[0][q + 2] == 2
  {
    if q < p + 3 {
      assert false;
    }
    var t := q - (p + 3);
    var j := t / 2;
    ShortBlocks(u, k, h, p + 3, j);
    NextBlock(u, k, h, p + 3 + 2 * j, 1 + j);
  }

  function Horizon(n: nat): nat {
    6 * n + 10
  }

  /** The table of a ring that loses none of its two or more messages cannot reach `Horizon` columns. */
  lemma NoTable(u: Rows, k: nat, h: nat)
    requires Table(u, k, h) && 2 <= k <= |u|
    ensures h < Horizon(|u|)
  {
    if h >= Horizon(|u|) {
      var n := FindTwo(u, k, h, 2 * k);
      var a := HighUpTo(u, k, h, n, |u|);
      var p := LongBlock(u, k, h, n, a);
      var q := p + (k - 1);
      Periodic(u, k, h, q);
      Periodic(u, k, h, q + 2);
      LongBlocksApart(u, k, h, p, q);
    }
  }
}
