/** The Smith-Waterman aligner proper: the score matrix H, updated in place,
    filled either row by row or one anti-diagonal at a time. The fill methods
    compare H with a ghost table T that satisfies the recurrence (IsTable);
    SmithWaterman supplies Table(s1, s2), the only such table, and states its
    result in terms of Score itself. */
module Aligner {
  import opened Scoring

  /** H is (|s1| + 1) x (|s2| + 1), one row per prefix of s1, one column per prefix of s2. */
  predicate Shaped(H: array2<int>, s1: string, s2: string)
  {
    H.Length0 == |s1| + 1 && H.Length1 == |s2| + 1
  }

  /** Row 0 and column 0 hold 0, as the caller's initialisation leaves them. */
  ghost predicate ZeroBorder(H: array2<int>)
    reads H
  {
    (forall r :: 0 <= r < H.Length0 && 0 < H.Length1 ==> H[r, 0] == 0) &&
    (forall c :: 0 <= c < H.Length1 && 0 < H.Length0 ==> H[0, c] == 0)
  }

  /** Every cell of H holds its score. */
  ghost predicate IsScoreTable(H: array2<int>, s1: string, s2: string)
    reads H
    requires Shaped(H, s1, s2)
  {
    forall r, c {:trigger H[r, c]} :: 0 <= r <= |s1| && 0 <= c <= |s2| ==> H[r, c] == Score(s1, s2, r, c)
  }

  /** T has one cell for each cell of H. */
  ghost predicate SameShape(H: array2<int>, T: seq<seq<int>>)
  {
    TableShape(T, H.Length0 - 1, H.Length1 - 1)
  }

  /** Every cell of H holds its cell of T. */
  ghost predicate HoldsTable(H: array2<int>, T: seq<seq<int>>)
    reads H
    requires SameShape(H, T)
  {
    forall r, c {:trigger H[r, c]} :: 0 <= r < H.Length0 && 0 <= c < H.Length1 ==> H[r, c] == T[r][c]
  }

  /** The value the recurrence gives cell (i, j) from the three neighbours stored in H. */
  ghost function CellValue(H: array2<int>, s1: string, s2: string, i: int, j: int): int
    reads H
    requires Shaped(H, s1, s2) && Interior(|s1|, |s2|, i, j)
  {
    GetMax(0, H[i - 1, j - 1] + Subst(s1[i - 1], s2[j - 1]), H[i - 1, j] + GAP, H[i, j - 1] + GAP)
  }

  /** H has a zero border and every interior cell obeys the recurrence over its neighbours in H. */
  ghost predicate SatisfiesRecurrence(H: array2<int>, s1: string, s2: string)
    reads H
    requires Shaped(H, s1, s2)
  {
    ZeroBorder(H) &&
    forall r, c {:trigger CellValue(H, s1, s2, r, c)} ::
      Interior(|s1|, |s2|, r, c) ==> H[r, c] == CellValue(H, s1, s2, r, c)
  }

  lemma {:induction false} RecurrenceForcesScore(H: array2<int>, s1: string, s2: string, r: int, c: int)
    requires Shaped(H, s1, s2) && SatisfiesRecurrence(H, s1, s2)
    requires 0 <= r <= |s1| && 0 <= c <= |s2|
    ensures H[r, c] == Score(s1, s2, r, c)
    decreases r + c
  {
    if r > 0 && c > 0 {
      RecurrenceForcesScore(H, s1, s2, r - 1, c - 1);
      RecurrenceForcesScore(H, s1, s2, r - 1, c);
      RecurrenceForcesScore(H, s1, s2, r, c - 1);
      assert H[r, c] == CellValue(H, s1, s2, r, c);
    }
  }

  /** The recurrence with a zero border has exactly one solution, the score table. */
  lemma RecurrenceIffScoreTable(H: array2<int>, s1: string, s2: string)
    requires Shaped(H, s1, s2)
    ensures SatisfiesRecurrence(H, s1, s2) <==> IsScoreTable(H, s1, s2)
  {
    if SatisfiesRecurrence(H, s1, s2) {
      forall r, c | 0 <= r <= |s1| && 0 <= c <= |s2| ensures H[r, c] == Score(s1, s2, r, c) {
        RecurrenceForcesScore(H, s1, s2, r, c);
      }
    }
    if IsScoreTable(H, s1, s2) {
      forall r | 0 <= r < H.Length0 ensures H[r, 0] == 0 {
        assert H[r, 0] == Score(s1, s2, r, 0);
      }
      forall c | 0 <= c < H.Length1 ensures H[0, c] == 0 {
        assert H[0, c] == Score(s1, s2, 0, c);
      }
      forall r, c | Interior(|s1|, |s2|, r, c) ensures H[r, c] == CellValue(H, s1, s2, r, c) {
        assert H[r - 1, c - 1] == Score(s1, s2, r - 1, c - 1);
        assert H[r - 1, c] == Score(s1, s2, r - 1, c);
        assert H[r, c - 1] == Score(s1, s2, r, c - 1);
        assert H[r, c] == Score(s1, s2, r, c);
      }
    }
  }

  /** Allocates the (m + 1) x (n + 1) matrix and sets every cell to 0. */
  method NewScoreMatrix(m: nat, n: nat) returns (H: array2<int>)
    ensures fresh(H) && H.Length0 == m + 1 && H.Length1 == n + 1
    ensures forall r, c :: 0 <= r <= m && 0 <= c <= n ==> H[r, c] == 0
  {
    H := new int[m + 1, n + 1];
    var i := 0;
    while i <= m
      invariant 0 <= i <= m + 1
      invariant forall r, c :: 0 <= r < i && 0 <= c <= n ==> H[r, c] == 0
    {
      var j := 0;
      while j <= n
        invariant 0 <= j <= n + 1
        invariant forall r, c :: 0 <= r < i && 0 <= c <= n ==> H[r, c] == 0
        invariant forall c :: 0 <= c < j ==> H[i, c] == 0
      {
        H[i, j] := 0;
        j := j + 1;
      }
      i := i + 1;
    }
  }

  /** The body shared by both branches: cell (i, j) computed from its diagonal,
      upper and left neighbours, which must already hold their cells of the
      table T. The new value is returned for the caller's running maximum; no
      other cell changes. */
  method FillCell(seq1: string, seq2: string, H: array2<int>, i: int, j: int, ghost T: seq<seq<int>>) returns (v: int)
    requires Shaped(H, seq1, seq2) && IsTable(T, seq1, seq2) && Interior(|seq1|, |seq2|, i, j)
    requires H[i - 1, j - 1] == T[i - 1][j - 1]
    requires H[i - 1, j] == T[i - 1][j]
    requires H[i, j - 1] == T[i][j - 1]
    modifies H
    ensures v == H[i, j] == T[i][j]
    ensures forall r, c :: 0 <= r < H.Length0 && 0 <= c < H.Length1 && (r != i || c != j) ==> H[r, c] == old(H[r, c])
  {
    assert T[i][j] == Recur(T, seq1, seq2, i, j);
    var diagonal := H[i - 1, j - 1] + (if seq1[i - 1] == seq2[j - 1] then MATCH else MISMATCH);
    var del := H[i - 1, j] + GAP;
    var ins := H[i, j - 1] + GAP;
    H[i, j] := GetMax(0, diagonal, del, ins);
    v := H[i, j];
  }

  /** Every cell on the border, or on an anti-diagonal r + c < b, holds its cell of T. */
  ghost predicate DoneBelow(H: array2<int>, T: seq<seq<int>>, b: int)
    reads H
    requires SameShape(H, T)
  {
    forall r, c {:trigger H[r, c]} :: 0 <= r < H.Length0 && 0 <= c < H.Length1 && (r == 0 || c == 0 || r + c < b) ==>
      H[r, c] == T[r][c]
  }

  /** Every cell on the border, in rows above i, or in row i left of column j, holds its cell of T. */
  ghost predicate DoneRowMajor(H: array2<int>, T: seq<seq<int>>, i: int, j: int)
    reads H
    requires SameShape(H, T)
  {
    forall r, c {:trigger H[r, c]} :: 0 <= r < H.Length0 && 0 <= c < H.Length1 && (r == 0 || c == 0 || r < i || (r == i && c < j)) ==>
      H[r, c] == T[r][c]
  }

  /** The sequential branch: rows top to bottom, each row left to right. */
  method FillRowMajor(seq1: string, seq2: string, H: array2<int>, ghost T: seq<seq<int>>) returns (maxScore: int)
    requires Shaped(H, seq1, seq2) && ZeroBorder(H) && IsTable(T, seq1, seq2)
    modifies H
    ensures HoldsTable(H, T)
    ensures maxScore == PrefixBest(T, |seq2|, |seq1|)
  {
    var m, n := |seq1|, |seq2|;
    maxScore := 0;
    var i := 1;
    while i <= m
      invariant 1 <= i <= m + 1
      invariant DoneRowMajor(H, T, i, 0)
      invariant maxScore == PrefixBest(T, n, i - 1)
    {
      var j := 1;
      while j <= n
        invariant 1 <= j <= n + 1
        invariant DoneRowMajor(H, T, i, j)
        invariant maxScore == Max(PrefixBest(T, n, i - 1), RowBest(T, i, j - 1))
      {
        var v := FillCell(seq1, seq2, H, i, j, T);
        if v > maxScore {
          maxScore := v;
        }
        j := j + 1;
      }
      i := i + 1;
    }
  }

  /** Row i lies on anti-diagonal diag inside the table: 1 <= i <= m and 1 <= diag - i <= n. */
  predicate OnDiagonal(m: int, n: int, diag: int, i: int)
  {
    Interior(m, n, i, diag - i)
  }

  /** The row range start..end of anti-diagonal diag: exactly the rows that put
      the diagonal's cell inside the table, so the wavefront's column guard never
      rejects a row and no index leaves [0, m] x [0, n]. */
  function DiagRows(m: int, n: int, diag: int): (range: (int, int))
    ensures forall i :: range.0 <= i <= range.1 <==> OnDiagonal(m, n, diag, i)
  {
    var start := if diag <= n then 1 else diag - n;
    var end := if diag <= m then diag - 1 else m;
    (start, end)
  }

  /** order visits each of lo..hi exactly once, in some order. */
  ghost predicate IsOrdering(order: seq<int>, lo: int, hi: int)
  {
    (forall k :: 0 <= k < |order| ==> lo <= order[k] <= hi) &&
    (forall i :: lo <= i <= hi ==> i in order) &&
    (forall k, l :: 0 <= k < l < |order| ==> order[k] != order[l])
  }

  /** The ascending order lo, lo + 1, ..., hi. */
  function Range(lo: int, hi: int): (order: seq<int>)
    ensures forall k :: 0 <= k < |order| ==> order[k] == lo + k
    ensures IsOrdering(order, lo, hi)
    decreases hi - lo
  {
    if hi < lo then [] else [lo] + Range(lo + 1, hi)
  }

  /** A schedule of the parallel branch: for each anti-diagonal diag = 2 .. m + n,
      at index diag - 2, the order in which the threads happen to visit its rows. */
  ghost predicate IsSchedule(orders: seq<seq<int>>, m: int, n: int)
  {
    |orders| == Max(0, m + n - 1) &&
    forall k :: 0 <= k < |orders| ==> IsOrdering(orders[k], DiagRows(m, n, k + 2).0, DiagRows(m, n, k + 2).1)
  }

  /** The schedule of a single thread running each diagonal's loop in ascending order. */
  function AscendingSchedule(m: int, n: int): (orders: seq<seq<int>>)
    ensures IsSchedule(orders, m, n)
  {
    seq(Max(0, m + n - 1), k => Range(DiagRows(m, n, k + 2).0, DiagRows(m, n, k + 2).1))
  }

  /** The max-reduction of the parallel loop, from 0, over the first k rows of
      order on anti-diagonal diag of table t. */
  ghost function FoldMax(t: seq<seq<int>>, m: int, n: int, diag: int, order: seq<int>, k: int): int
    requires TableShape(t, m, n) && 0 <= k <= |order|
  {
    if k == 0 then 0
    else Max(FoldMax(t, m, n, diag, order, k - 1),
             if OnDiagonal(m, n, diag, order[k - 1]) then t[order[k - 1]][diag - order[k - 1]] else 0)
  }

  /** v is the largest cell of t on anti-diagonal diag, or 0 when none is positive. */
  ghost predicate DiagonalBest(t: seq<seq<int>>, m: int, n: int, diag: int, v: int)
    requires TableShape(t, m, n)
  {
    v >= 0 &&
    (forall i :: OnDiagonal(m, n, diag, i) ==> t[i][diag - i] <= v) &&
    (v == 0 || exists i :: OnDiagonal(m, n, diag, i) && t[i][diag - i] == v)
  }

  lemma {:induction false} FoldMaxBounds(t: seq<seq<int>>, m: int, n: int, diag: int, order: seq<int>, k: int)
    requires TableShape(t, m, n) && 0 <= k <= |order|
    ensures FoldMax(t, m, n, diag, order, k) >= 0
    ensures forall l :: 0 <= l < k && OnDiagonal(m, n, diag, order[l]) ==>
              t[order[l]][diag - order[l]] <= FoldMax(t, m, n, diag, order, k)
    ensures FoldMax(t, m, n, diag, order, k) == 0 ||
            exists i :: OnDiagonal(m, n, diag, i) && t[i][diag - i] == FoldMax(t, m, n, diag, order, k)
    decreases k
  {
    if k > 0 {
      FoldMaxBounds(t, m, n, diag, order, k - 1);
    }
  }

  /** Over any ordering of the diagonal's rows the reduction is the diagonal's
      best cell: the visiting order of the dynamic schedule does not change it. */
  lemma FoldMaxIsDiagonalBest(t: seq<seq<int>>, m: int, n: int, diag: int, order: seq<int>)
    requires TableShape(t, m, n)
    requires IsOrdering(order, DiagRows(m, n, diag).0, DiagRows(m, n, diag).1)
    ensures DiagonalBest(t, m, n, diag, FoldMax(t, m, n, diag, order, |order|))
  {
    var range := DiagRows(m, n, diag);
    FoldMaxBounds(t, m, n, diag, order, |order|);
    var v := FoldMax(t, m, n, diag, order, |order|);
    forall i | OnDiagonal(m, n, diag, i) ensures t[i][diag - i] <= v {
      assert range.0 <= i <= range.1;
      assert i in order;
      var l :| 0 <= l < |order| && order[l] == i;
    }
  }

  /** One anti-diagonal of the wavefront: the parallel loop over rows start..end
      with its max-reduction, taken in an arbitrary order (the dynamic schedule).
      Each cell reads only cells of earlier diagonals, so whatever the order,
      every cell of diag receives its score, the other cells keep their values,
      and localMax is the reduction over the diagonal (FoldMaxIsDiagonalBest: its
      largest score, or 0). writes counts the rows whose cell was written: the
      column guard admits every row of start..end. */
  method FillDiagonal(seq1: string, seq2: string, H: array2<int>, diag: int, order: seq<int>, ghost T: seq<seq<int>>)
      returns (localMax: int, ghost writes: int)
    requires Shaped(H, seq1, seq2) && IsTable(T, seq1, seq2) && DoneBelow(H, T, diag)
    requires IsOrdering(order, DiagRows(|seq1|, |seq2|, diag).0, DiagRows(|seq1|, |seq2|, diag).1)
    modifies H
    ensures DoneBelow(H, T, diag + 1)
    ensures forall r, c :: 0 <= r <= |seq1| && 0 <= c <= |seq2| && r + c != diag ==> H[r, c] == old(H[r, c])
    ensures localMax == FoldMax(T, |seq1|, |seq2|, diag, order, |order|)
    ensures writes == |order|
  {
    var m, n := |seq1|, |seq2|;
    localMax := 0;
    writes := 0;
    ghost var done: set<int> := {};
    var k := 0;
    while k < |order|
      invariant 0 <= k <= |order|
      invariant forall l :: 0 <= l < k ==> order[l] in done
      invariant forall r :: r in done ==> OnDiagonal(m, n, diag, r)
      invariant forall r, c {:trigger H[r, c]} :: 0 <= r <= m && 0 <= c <= n ==>
                  H[r, c] == if r + c == diag && r in done then T[r][c] else old(H[r, c])
      invariant localMax == FoldMax(T, m, n, diag, order, k)
      invariant writes == k
    {
      var i := order[k];
      assert OnDiagonal(m, n, diag, i);
      var j := diag - i;
      if j >= 1 && j <= n {
        var v := FillCell(seq1, seq2, H, i, j, T);
        if v > localMax {
          localMax := v;
        }
        done := done + {i};
        writes := writes + 1;
      }
      k := k + 1;
    }
    var range := DiagRows(m, n, diag);
    forall r | OnDiagonal(m, n, diag, r) ensures r in done {
      assert range.0 <= r <= range.1;
      assert r in order;
      var l :| 0 <= l < |order| && order[l] == r;
    }
  }

  /** The cells one anti-diagonal writes, row by row in the given order: row i
      of anti-diagonal diag writes cell (i, diag - i). */
  function DiagCells(order: seq<int>, diag: int): seq<(int, int)>
  {
    seq(|order|, k requires 0 <= k < |order| => (order[k], diag - order[k]))
  }

  /** The cells the wavefront's two loops write before anti-diagonal b, in the
      order they write them under the schedule orders. */
  ghost function WrittenBelow(orders: seq<seq<int>>, m: int, n: int, b: int): seq<(int, int)>
    requires 2 <= b <= |orders| + 2
    decreases b
  {
    if b == 2 then []
    else WrittenBelow(orders, m, n, b - 1) + DiagCells(orders[b - 3], b - 1)
  }

  /** Interior cells on anti-diagonals below b, each listed exactly once. */
  ghost predicate LogsBelow(log: seq<(int, int)>, m: int, n: int, b: int)
  {
    (forall r, c :: (r, c) in log <==> Interior(m, n, r, c) && r + c < b) &&
    (forall k, l :: 0 <= k < l < |log| ==> log[k] != log[l])
  }

  /** Appending one diagonal's cells, in any ordering of its rows, extends the log by that diagonal. */
  lemma LogStep(log: seq<(int, int)>, written: seq<(int, int)>, order: seq<int>, m: int, n: int, diag: int)
    requires LogsBelow(log, m, n, diag)
    requires IsOrdering(order, DiagRows(m, n, diag).0, DiagRows(m, n, diag).1)
    requires |written| == |order|
    requires forall k :: 0 <= k < |order| ==> written[k] == (order[k], diag - order[k])
    ensures LogsBelow(log + written, m, n, diag + 1)
  {
    var range := DiagRows(m, n, diag);
    forall r, c | Interior(m, n, r, c) && r + c == diag ensures (r, c) in written {
      assert OnDiagonal(m, n, diag, r);
      assert range.0 <= r <= range.1;
      assert r in order;
      var k :| 0 <= k < |order| && order[k] == r;
      assert written[k] == (r, c);
    }
    forall x | x in written ensures Interior(m, n, x.0, x.1) && x.0 + x.1 == diag {
      var k :| 0 <= k < |written| && written[k] == x;
      assert range.0 <= order[k] <= range.1;
      assert OnDiagonal(m, n, diag, order[k]);
    }
    var all := log + written;
    forall k, l | 0 <= k < l < |all| ensures all[k] != all[l] {
      if l < |log| {
      } else if k >= |log| {
        assert written[k - |log|] == (order[k - |log|], diag - order[k - |log|]);
        assert written[l - |log|] == (order[l - |log|], diag - order[l - |log|]);
      } else {
        assert all[k] in log;
        assert all[l] in written;
      }
    }
  }

  lemma {:induction false} WrittenBelowExact(orders: seq<seq<int>>, m: int, n: int, b: int)
    requires IsSchedule(orders, m, n) && 2 <= b <= |orders| + 2
    ensures LogsBelow(WrittenBelow(orders, m, n, b), m, n, b)
    decreases b
  {
    if b > 2 {
      WrittenBelowExact(orders, m, n, b - 1);
      var order := orders[b - 3];
      LogStep(WrittenBelow(orders, m, n, b - 1), DiagCells(order, b - 1), order, m, n, b - 1);
    }
  }

  /** Every cell the wavefront writes under the schedule orders, over anti-diagonals 2 .. m + n. */
  ghost function WavefrontCells(orders: seq<seq<int>>, m: int, n: int): seq<(int, int)>
    requires IsSchedule(orders, m, n)
  {
    WrittenBelow(orders, m, n, |orders| + 2)
  }

  /** Under every schedule, the wavefront's loops write every interior cell, and none twice. */
  lemma WavefrontWritesEachCellOnce(orders: seq<seq<int>>, m: int, n: int)
    requires IsSchedule(orders, m, n)
    ensures forall r, c :: (r, c) in WavefrontCells(orders, m, n) <==> Interior(m, n, r, c)
    ensures forall k, l :: 0 <= k < l < |WavefrontCells(orders, m, n)| ==>
              WavefrontCells(orders, m, n)[k] != WavefrontCells(orders, m, n)[l]
  {
    WrittenBelowExact(orders, m, n, |orders| + 2);
  }

  /** v folded over the diagonals below b: the best interior cell of t there, or 0. */
  ghost predicate BestBelow(t: seq<seq<int>>, m: int, n: int, b: int, v: int)
    requires TableShape(t, m, n)
  {
    v >= 0 &&
    (forall r, c :: Interior(m, n, r, c) && r + c < b ==> t[r][c] <= v) &&
    (v == 0 || exists r, c :: Interior(m, n, r, c) && r + c < b && t[r][c] == v)
  }

  /** Folding one diagonal's maximum into the running maximum covers one more diagonal. */
  lemma BestBelowStep(t: seq<seq<int>>, m: int, n: int, diag: int, v: int, w: int)
    requires TableShape(t, m, n)
    requires BestBelow(t, m, n, diag, v) && DiagonalBest(t, m, n, diag, w)
    ensures BestBelow(t, m, n, diag + 1, Max(v, w))
  {
    forall r, c | Interior(m, n, r, c) && r + c == diag ensures t[r][c] <= w {
      assert OnDiagonal(m, n, diag, r);
    }
    if Max(v, w) != 0 {
      if v >= w {
        var r, c :| Interior(m, n, r, c) && r + c < diag && t[r][c] == v;
        assert r + c < diag + 1;
      } else {
        var i :| OnDiagonal(m, n, diag, i) && t[i][diag - i] == w;
        assert Interior(m, n, i, diag - i) && i + (diag - i) < diag + 1;
      }
    }
  }

  /** After the last anti-diagonal the running maximum is the row-major fold of the table. */
  lemma BestBelowComplete(t: seq<seq<int>>, m: int, n: int, b: int, v: int)
    requires TableShape(t, m, n) && 0 <= m && 0 <= n
    requires b > m + n && BestBelow(t, m, n, b, v)
    ensures v == PrefixBest(t, n, m)
  {
    assert IsBestOf(t, m, n, v);
    BestOfIsPrefixBest(t, m, n, v);
  }

  /** The parallel branch: anti-diagonals diag = 2 .. m + n in turn (the barrier
      between them is the loop's sequencing), each filled by FillDiagonal in the
      row order the schedule gives for it, its local maximum folded into maxScore.
      The result is the same for every schedule. The cells written are those of
      WavefrontCells, each interior cell once (WavefrontWritesEachCellOnce). */
  method FillWavefront(seq1: string, seq2: string, H: array2<int>, orders: seq<seq<int>>, ghost T: seq<seq<int>>)
      returns (maxScore: int)
    requires Shaped(H, seq1, seq2) && ZeroBorder(H) && IsTable(T, seq1, seq2)
    requires IsSchedule(orders, |seq1|, |seq2|)
    modifies H
    ensures HoldsTable(H, T)
    ensures maxScore == PrefixBest(T, |seq2|, |seq1|)
  {
    var m, n := |seq1|, |seq2|;
    maxScore := 0;
    var diag := 2;
    while diag <= m + n
      invariant 2 <= diag <= Max(2, m + n + 1)
      invariant DoneBelow(H, T, diag)
      invariant BestBelow(T, m, n, diag, maxScore)
    {
      // orders[diag - 2] is some ordering of start .. end (DiagRows).
      var order := orders[diag - 2];
      var localMax, writes := FillDiagonal(seq1, seq2, H, diag, order, T);
      FoldMaxIsDiagonalBest(T, m, n, diag, order);
      BestBelowStep(T, m, n, diag, maxScore, localMax);
      if localMax > maxScore {
        maxScore := localMax;
      }
      diag := diag + 1;
    }
    BestBelowComplete(T, m, n, diag, maxScore);
  }

  /** smith_waterman: fills H in place and returns the alignment score. One
      thread selects the row-major branch, any other count the wavefront; both
      leave H equal to the score table (so the border is left as it was and every
      interior cell satisfies the recurrence) and return the same score. orders
      is the schedule the threads happen to follow within each diagonal (unused
      with one thread); the result is the same for every schedule. */
  method SmithWaterman(seq1: string, seq2: string, H: array2<int>, numThreads: int, orders: seq<seq<int>>)
      returns (maxScore: int)
    requires Shaped(H, seq1, seq2) && ZeroBorder(H)
    requires numThreads != 1 ==> IsSchedule(orders, |seq1|, |seq2|)
    modifies H
    ensures IsScoreTable(H, seq1, seq2)
    ensures SatisfiesRecurrence(H, seq1, seq2)
    ensures forall r, c :: 0 <= r <= |seq1| && 0 <= c <= |seq2| && (r == 0 || c == 0) ==> H[r, c] == old(H[r, c])
    ensures maxScore == BestScore(seq1, seq2)
  {
    ghost var T := Table(seq1, seq2);
    IsTableIffTable(T, seq1, seq2);
    if numThreads == 1 {
      maxScore := FillRowMajor(seq1, seq2, H, T);
    } else {
      maxScore := FillWavefront(seq1, seq2, H, orders, T);
    }
    forall r, c | 0 <= r <= |seq1| && 0 <= c <= |seq2| ensures H[r, c] == Score(seq1, seq2, r, c) {
      TableAt(seq1, seq2, r, c);
    }
    RecurrenceIffScoreTable(H, seq1, seq2);
  }

  /** The trial loop of the driver: a fresh zeroed matrix per thread count, one
      alignment each, the scores collected in order. Every trial returns the
      same score, whatever schedule each parallel trial follows, which is what
      lets the driver report it as consistent. */
  method ScoresAcrossThreadCounts(seq1: string, seq2: string, threads: seq<int>, schedules: seq<seq<seq<int>>>)
      returns (scores: seq<int>)
    requires |schedules| == |threads|
    requires forall k :: 0 <= k < |schedules| && threads[k] != 1 ==> IsSchedule(schedules[k], |seq1|, |seq2|)
    ensures |scores| == |threads|
    ensures forall k :: 0 <= k < |scores| ==> scores[k] == BestScore(seq1, seq2)
  {
    scores := [];
    var idx := 0;
    while idx < |threads|
      invariant 0 <= idx <= |threads|
      invariant |scores| == idx
      invariant forall k :: 0 <= k < idx ==> scores[k] == BestScore(seq1, seq2)
    {
      var H := NewScoreMatrix(|seq1|, |seq2|);
      var maxScore := SmithWaterman(seq1, seq2, H, threads[idx], schedules[idx]);
      scores := scores + [maxScore];
      idx := idx + 1;
    }
  }
}
