/** The linear-gap local-alignment scoring scheme of the Smith-Waterman aligner,
    the score table it defines, and the best score over that table. */
module Scoring {

  const MATCH: int := 2
  const MISMATCH: int := -1
  const GAP: int := -1

  /** The largest of four integers: start from a, then let b, c and d replace
      it in turn when they are strictly larger. */
  function GetMax(a: int, b: int, c: int, d: int): (r: int)
    ensures r >= a && r >= b && r >= c && r >= d
    ensures r == a || r == b || r == c || r == d
  {
    var v0 := a;
    var v1 := if b > v0 then b else v0;
    var v2 := if c > v1 then c else v1;
    if d > v2 then d else v2
  }

  function Max(a: int, b: int): int
  {
    if a >= b then a else b
  }

  function Min(a: int, b: int): int
  {
    if a <= b then a else b
  }

  /** Substitution score of aligning symbol x against symbol y. */
  function Subst(x: char, y: char): int
  {
    if x == y then MATCH else MISMATCH
  }

  /** Score(s1, s2, i, j) is the value H[i][j] must hold: 0 on row 0 and
      column 0, and elsewhere the local-alignment recurrence over the
      diagonal, upper and left neighbours, floored at 0. */
  function Score(s1: string, s2: string, i: int, j: int): (r: int)
    requires 0 <= i <= |s1| && 0 <= j <= |s2|
    ensures r >= 0
    decreases i + j
  {
    if i == 0 || j == 0 then 0
    else GetMax(0,
                Score(s1, s2, i - 1, j - 1) + Subst(s1[i - 1], s2[j - 1]),
                Score(s1, s2, i - 1, j) + GAP,
                Score(s1, s2, i, j - 1) + GAP)
  }

  /** The cell (i, j) lies strictly inside the table, off row 0 and column 0. */
  predicate Interior(m: int, n: int, i: int, j: int)
  {
    1 <= i <= m && 1 <= j <= n
  }

  /** t has m + 1 rows of n + 1 cells each. */
  ghost predicate TableShape(t: seq<seq<int>>, m: int, n: int)
  {
    |t| == m + 1 && forall r :: 0 <= r < |t| ==> |t[r]| == n + 1
  }

  /** Score(i, 0), ..., Score(i, j): row i of the table up to column j. */
  ghost function TableRow(s1: string, s2: string, i: int, j: int): (row: seq<int>)
    requires 0 <= i <= |s1| && 0 <= j <= |s2|
    ensures |row| == j + 1
    decreases j
  {
    if j == 0 then [Score(s1, s2, i, 0)] else TableRow(s1, s2, i, j - 1) + [Score(s1, s2, i, j)]
  }

  /** Rows 0, ..., i of the table. */
  ghost function TableRows(s1: string, s2: string, i: int): (rows: seq<seq<int>>)
    requires 0 <= i <= |s1|
    ensures |rows| == i + 1 && forall r :: 0 <= r < |rows| ==> |rows[r]| == |s2| + 1
    decreases i
  {
    if i == 0 then [TableRow(s1, s2, 0, |s2|)] else TableRows(s1, s2, i - 1) + [TableRow(s1, s2, i, |s2|)]
  }

  /** The whole (|s1| + 1) x (|s2| + 1) score table, as a value. */
  ghost function Table(s1: string, s2: string): (t: seq<seq<int>>)
    ensures TableShape(t, |s1|, |s2|)
  {
    TableRows(s1, s2, |s1|)
  }

  lemma {:induction false} TableRowAt(s1: string, s2: string, i: int, j: int, c: int)
    requires 0 <= i <= |s1| && 0 <= c <= j <= |s2|
    ensures TableRow(s1, s2, i, j)[c] == Score(s1, s2, i, c)
    decreases j
  {
    if c < j {
      TableRowAt(s1, s2, i, j - 1, c);
    }
  }

  lemma {:induction false} TableRowsAt(s1: string, s2: string, i: int, r: int)
    requires 0 <= r <= i <= |s1|
    ensures TableRows(s1, s2, i)[r] == TableRow(s1, s2, r, |s2|)
    decreases i
  {
    if r < i {
      TableRowsAt(s1, s2, i - 1, r);
    }
  }

  /** Each cell of Table is the cell's score. */
  lemma TableAt(s1: string, s2: string, r: int, c: int)
    requires 0 <= r <= |s1| && 0 <= c <= |s2|
    ensures Table(s1, s2)[r][c] == Score(s1, s2, r, c)
  {
    TableRowsAt(s1, s2, |s1|, r);
    TableRowAt(s1, s2, r, |s2|, c);
  }

  /** Row 0 and column 0 of Table are 0. */
  lemma TableBorder(s1: string, s2: string)
    ensures forall r :: 0 <= r <= |s1| ==> Table(s1, s2)[r][0] == 0
    ensures forall c :: 0 <= c <= |s2| ==> Table(s1, s2)[0][c] == 0
  {
    forall r | 0 <= r <= |s1| ensures Table(s1, s2)[r][0] == 0 {
      TableAt(s1, s2, r, 0);
    }
    forall c | 0 <= c <= |s2| ensures Table(s1, s2)[0][c] == 0 {
      TableAt(s1, s2, 0, c);
    }
  }

  /** An interior cell of Table follows from its three neighbours in Table. */
  lemma TableRecurrence(s1: string, s2: string, i: int, j: int)
    requires Interior(|s1|, |s2|, i, j)
    ensures Table(s1, s2)[i][j] ==
            GetMax(0, Table(s1, s2)[i - 1][j - 1] + Subst(s1[i - 1], s2[j - 1]),
                   Table(s1, s2)[i - 1][j] + GAP, Table(s1, s2)[i][j - 1] + GAP)
  {
    TableAt(s1, s2, i, j);
    TableAt(s1, s2, i - 1, j - 1);
    TableAt(s1, s2, i - 1, j);
    TableAt(s1, s2, i, j - 1);
  }

  /** The recurrence's value for interior cell (i, j) of t, from its diagonal,
      upper and left neighbours in t. */
  ghost function Recur(t: seq<seq<int>>, s1: string, s2: string, i: int, j: int): int
    requires TableShape(t, |s1|, |s2|) && Interior(|s1|, |s2|, i, j)
  {
    GetMax(0, t[i - 1][j - 1] + Subst(s1[i - 1], s2[j - 1]), t[i - 1][j] + GAP, t[i][j - 1] + GAP)
  }

  /** t is a filled score table for s1 and s2: the right shape, 0 on row 0 and
      column 0, and every interior cell given by the recurrence over t itself. */
  ghost predicate IsTable(t: seq<seq<int>>, s1: string, s2: string)
  {
    TableShape(t, |s1|, |s2|) &&
    (forall r :: 0 <= r <= |s1| ==> t[r][0] == 0) &&
    (forall c :: 0 <= c <= |s2| ==> t[0][c] == 0) &&
    (forall i, j {:trigger Recur(t, s1, s2, i, j)} :: Interior(|s1|, |s2|, i, j) ==> t[i][j] == Recur(t, s1, s2, i, j))
  }

  lemma {:induction false} IsTableCell(t: seq<seq<int>>, s1: string, s2: string, r: int, c: int)
    requires IsTable(t, s1, s2) && 0 <= r <= |s1| && 0 <= c <= |s2|
    ensures t[r][c] == Score(s1, s2, r, c)
    decreases r + c
  {
    if r > 0 && c > 0 {
      IsTableCell(t, s1, s2, r - 1, c - 1);
      IsTableCell(t, s1, s2, r - 1, c);
      IsTableCell(t, s1, s2, r, c - 1);
      assert t[r][c] == Recur(t, s1, s2, r, c);
    }
  }

  /** The recurrence with a zero border has exactly one solution: Table. */
  lemma IsTableIffTable(t: seq<seq<int>>, s1: string, s2: string)
    ensures IsTable(t, s1, s2) <==> t == Table(s1, s2)
  {
    var T := Table(s1, s2);
    TableBorder(s1, s2);
    forall i, j | Interior(|s1|, |s2|, i, j) ensures T[i][j] == Recur(T, s1, s2, i, j) {
      TableRecurrence(s1, s2, i, j);
    }
    assert IsTable(T, s1, s2);
    if IsTable(t, s1, s2) {
      forall r | 0 <= r <= |s1| ensures t[r] == T[r] {
        forall c | 0 <= c <= |s2| ensures t[r][c] == T[r][c] {
          IsTableCell(t, s1, s2, r, c);
          TableAt(s1, s2, r, c);
        }
      }
    }
  }

  /** v is the largest interior score, or 0 when there is no positive one. */
  ghost predicate IsBestScore(s1: string, s2: string, v: int)
  {
    v >= 0 &&
    (forall i, j :: Interior(|s1|, |s2|, i, j) ==> Score(s1, s2, i, j) <= v) &&
    (v == 0 || exists i, j :: Interior(|s1|, |s2|, i, j) && Score(s1, s2, i, j) == v)
  }

  /** The same characterisation, read off a table t of shape (m + 1) x (n + 1). */
  ghost predicate IsBestOf(t: seq<seq<int>>, m: int, n: int, v: int)
    requires TableShape(t, m, n)
  {
    v >= 0 &&
    (forall i, j :: Interior(m, n, i, j) ==> t[i][j] <= v) &&
    (v == 0 || exists i, j :: Interior(m, n, i, j) && t[i][j] == v)
  }

  /** Running maximum (from 0) over t[i][1..j]: the row-major fold of one row. */
  function RowBest(t: seq<seq<int>>, i: int, j: int): int
    requires 0 <= i < |t| && 0 <= j < |t[i]|
    decreases j
  {
    if j == 0 then 0 else Max(RowBest(t, i, j - 1), t[i][j])
  }

  /** Running maximum (from 0) over rows 1..i, columns 1..n: the row-major fold of the table. */
  function PrefixBest(t: seq<seq<int>>, n: int, i: int): int
    requires 0 <= i < |t| && 0 <= n && forall r :: 0 <= r < |t| ==> n < |t[r]|
    decreases i
  {
    if i == 0 then 0 else Max(PrefixBest(t, n, i - 1), RowBest(t, i, n))
  }

  /** The alignment score: the maximum over the whole table, folded row by row. */
  ghost function BestScore(s1: string, s2: string): int
  {
    PrefixBest(Table(s1, s2), |s2|, |s1|)
  }

  lemma {:induction false} RowBestBounds(t: seq<seq<int>>, i: int, j: int)
    requires 0 <= i < |t| && 0 <= j < |t[i]|
    ensures RowBest(t, i, j) >= 0
    ensures forall c :: 1 <= c <= j ==> t[i][c] <= RowBest(t, i, j)
    ensures RowBest(t, i, j) == 0 || exists c :: 1 <= c <= j && t[i][c] == RowBest(t, i, j)
    decreases j
  {
    if j > 0 {
      RowBestBounds(t, i, j - 1);
      var p := RowBest(t, i, j - 1);
      if t[i][j] > p {
        assert t[i][j] == RowBest(t, i, j);
      } else if p != 0 {
        var c :| 1 <= c <= j - 1 && t[i][c] == p;
        assert t[i][c] == RowBest(t, i, j);
      }
    }
  }

  lemma {:induction false} PrefixBestBounds(t: seq<seq<int>>, n: int, i: int)
    requires 0 <= i < |t| && 0 <= n && forall r :: 0 <= r < |t| ==> n < |t[r]|
    ensures PrefixBest(t, n, i) >= 0
    ensures forall r, c :: 1 <= r <= i && 1 <= c <= n ==> t[r][c] <= PrefixBest(t, n, i)
    ensures PrefixBest(t, n, i) == 0 ||
            exists r, c :: 1 <= r <= i && 1 <= c <= n && t[r][c] == PrefixBest(t, n, i)
    decreases i
  {
    if i > 0 {
      PrefixBestBounds(t, n, i - 1);
      RowBestBounds(t, i, n);
      var p, q := PrefixBest(t, n, i - 1), RowBest(t, i, n);
      if p != 0 && p >= q {
        var r, c :| 1 <= r <= i - 1 && 1 <= c <= n && t[r][c] == p;
        assert 1 <= r <= i && t[r][c] == PrefixBest(t, n, i);
      } else if q != 0 && q > p {
        var c :| 1 <= c <= n && t[i][c] == q;
        assert t[i][c] == PrefixBest(t, n, i);
      }
    }
  }

  /** On any table, the row-major fold is exactly the largest interior cell floored at 0. */
  lemma BestOfIsPrefixBest(t: seq<seq<int>>, m: int, n: int, v: int)
    requires TableShape(t, m, n) && 0 <= m && 0 <= n
    ensures IsBestOf(t, m, n, v) <==> v == PrefixBest(t, n, m)
  {
    PrefixBestBounds(t, n, m);
    var b := PrefixBest(t, n, m);
    assert IsBestOf(t, m, n, b);
    if IsBestOf(t, m, n, v) {
      if v != 0 {
        var i, j :| Interior(m, n, i, j) && t[i][j] == v;
        assert v <= b;
      }
      if b != 0 {
        var i, j :| Interior(m, n, i, j) && t[i][j] == b;
        assert b <= v;
      }
    }
  }

  /** The row-major fold is exactly the largest interior score floored at 0:
      any value with that characterisation is BestScore, and BestScore has it. */
  lemma BestScoreCharacterised(s1: string, s2: string, v: int)
    ensures IsBestScore(s1, s2, v) <==> v == BestScore(s1, s2)
  {
    var t, m, n := Table(s1, s2), |s1|, |s2|;
    forall i, j | Interior(m, n, i, j) ensures t[i][j] == Score(s1, s2, i, j) {
      TableAt(s1, s2, i, j);
    }
    assert IsBestOf(t, m, n, v) <==> IsBestScore(s1, s2, v);
    BestOfIsPrefixBest(t, m, n, v);
  }

  /** Every score is at least 0 and at most MATCH times the shorter prefix:
      each step along a path adds at most MATCH and consumes a symbol of each
      sequence. So cells stay within a 32-bit int while both lengths are below 2^30. */
  lemma {:induction false} ScoreBound(s1: string, s2: string, i: int, j: int)
    requires 0 <= i <= |s1| && 0 <= j <= |s2|
    ensures 0 <= Score(s1, s2, i, j) <= MATCH * Min(i, j)
    decreases i + j
  {
    if i > 0 && j > 0 {
      ScoreBound(s1, s2, i - 1, j - 1);
      ScoreBound(s1, s2, i - 1, j);
      ScoreBound(s1, s2, i, j - 1);
    }
  }

  /** Identical sequences of length L score MATCH * L on the main diagonal. */
  lemma {:induction false} IdenticalDiagonal(s: string, i: int)
    requires 0 <= i <= |s|
    ensures Score(s, s, i, i) == MATCH * i
    decreases i
  {
    if i > 0 {
      IdenticalDiagonal(s, i - 1);
      ScoreBound(s, s, i - 1, i);
      ScoreBound(s, s, i, i - 1);
      ScoreBound(s, s, i, i);
    }
  }

  /** Known value: aligning a sequence against itself scores MATCH * |s|. */
  lemma IdenticalBestScore(s: string)
    ensures BestScore(s, s) == MATCH * |s|
  {
    var L := |s|;
    forall i, j | Interior(L, L, i, j) ensures Score(s, s, i, j) <= MATCH * L {
      ScoreBound(s, s, i, j);
    }
    if L > 0 {
      IdenticalDiagonal(s, L);
      assert Interior(L, L, L, L);
    }
    assert IsBestScore(s, s, MATCH * L);
    BestScoreCharacterised(s, s, MATCH * L);
  }

  /** Sequences with no symbol in common have an all-zero table. */
  lemma {:induction false} DisjointScoreZero(s1: string, s2: string, i: int, j: int)
    requires forall a, b :: 0 <= a < |s1| && 0 <= b < |s2| ==> s1[a] != s2[b]
    requires 0 <= i <= |s1| && 0 <= j <= |s2|
    ensures Score(s1, s2, i, j) == 0
    decreases i + j
  {
    if i > 0 && j > 0 {
      DisjointScoreZero(s1, s2, i - 1, j - 1);
      DisjointScoreZero(s1, s2, i - 1, j);
      DisjointScoreZero(s1, s2, i, j - 1);
    }
  }

  /** Zero floor: sequences with no symbol in common score 0. */
  lemma DisjointBestScore(s1: string, s2: string)
    requires forall a, b :: 0 <= a < |s1| && 0 <= b < |s2| ==> s1[a] != s2[b]
    ensures BestScore(s1, s2) == 0
  {
    forall i, j | Interior(|s1|, |s2|, i, j) ensures Score(s1, s2, i, j) <= 0 {
      DisjointScoreZero(s1, s2, i, j);
    }
    BestScoreCharacterised(s1, s2, 0);
  }
}
