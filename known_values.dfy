/** A worked example of the scoring scheme: the classic pair GATTACA and
    GCATGCU, whose table is written out cell by cell. */
module KnownValues {
  import opened Scoring

  const S1: string := "GATTACA"
  const S2: string := "GCATGCU"

  /** The score table of GATTACA (rows) against GCATGCU (columns). */
  function GattacaTable(): (t: seq<seq<int>>)
    ensures TableShape(t, 7, 7)
  {
    [[0, 0, 0, 0, 0, 0, 0, 0],
     [0, 2, 1, 0, 0, 2, 1, 0],
     [0, 1, 1, 3, 2, 1, 1, 0],
     [0, 0, 0, 2, 5, 4, 3, 2],
     [0, 0, 0, 1, 4, 4, 3, 2],
     [0, 0, 0, 2, 3, 3, 3, 2],
     [0, 0, 2, 1, 2, 2, 5, 4],
     [0, 0, 1, 4, 3, 2, 4, 4]]
  }

  lemma GattacaRow(i: int)
    requires 1 <= i <= 7
    ensures forall j :: 1 <= j <= 7 ==> GattacaTable()[i][j] == Recur(GattacaTable(), S1, S2, i, j)
  {
    var t := GattacaTable();
    forall j | 1 <= j <= 7 ensures t[i][j] == Recur(t, S1, S2, i, j) {
      assert j == 1 || j == 2 || j == 3 || j == 4 || j == 5 || j == 6 || j == 7;
    }
  }

  lemma GattacaIsTable()
    ensures IsTable(GattacaTable(), S1, S2)
  {
    forall i, j | Interior(7, 7, i, j) ensures GattacaTable()[i][j] == Recur(GattacaTable(), S1, S2, i, j) {
      GattacaRow(i);
    }
  }

  /** The table's largest interior cell is 5, attained at (3, 4) and at (6, 6). */
  lemma GattacaBest()
    ensures IsBestOf(GattacaTable(), 7, 7, 5)
  {
    var t := GattacaTable();
    forall i, j | Interior(7, 7, i, j) ensures t[i][j] <= 5 {
      assert i == 1 || i == 2 || i == 3 || i == 4 || i == 5 || i == 6 || i == 7;
    }
    assert t[3][4] == 5;
  }

  /** With MATCH = 2, MISMATCH = -1 and GAP = -1, GATTACA against GCATGCU scores 5.
      The strings are parameters equal to the constants, not the literals themselves,
      so that the solver does not try to unfold Score on the literal strings. */
  lemma GattacaScore(s1: string, s2: string)
    requires s1 == S1 && s2 == S2
    ensures BestScore(s1, s2) == 5
  {
    var t := GattacaTable();
    GattacaIsTable();
    GattacaBest();
    BestOfIsPrefixBest(t, 7, 7, 5);
    IsTableIffTable(t, s1, s2);
  }
}
