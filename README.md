# Smith-Waterman local alignment: a verified model of the benchmark's core

The program benchmarks Smith-Waterman local sequence alignment on DNA strings.
It fills an (m+1) x (n+1) score matrix H whose first row and column are zero. Every
interior cell gets

    H[i][j] = max(0, H[i-1][j-1] + (seq1[i-1] == seq2[j-1] ? MATCH : MISMATCH),
                  H[i-1][j] + GAP, H[i][j-1] + GAP)

with MATCH = 2, MISMATCH = -1 and GAP = -1. The alignment score is the largest cell,
or 0. With one thread the matrix is filled row by row. With any other thread count it is
filled as a wavefront: anti-diagonal by anti-diagonal, the cells of one diagonal shared among
threads in any order, and a max-reduction per diagonal. The driver builds a list of
thread counts 1, 2, 4, … that never exceeds the maximum thread count and has at most
ten entries. For each count it runs one alignment on a freshly zeroed matrix, and at
the end it reports the score as consistent across counts.

The model has four modules:

- `Scoring` (scoring.dfy) holds the constants and `GetMax`. It defines the reference
  score `Score(s1, s2, i, j)` by recursion and the whole reference table `Table`. It
  gives a characterisation `IsTable` by the recurrence alone, and the score
  `BestScore` as the best interior cell. It also proves general facts about scores:
  bounds, identical inputs, and inputs with no matching characters.
- `Aligner` (aligner.dfy) works in place on an `array2<int>`:
  - the zeroed matrix of the driver (`NewScoreMatrix`);
  - one cell update (`FillCell`);
  - the row-major branch (`FillRowMajor`);
  - one anti-diagonal visited in an arbitrary order of its rows, which is how
    `schedule(dynamic)` is modelled (`FillDiagonal`);
  - the wavefront branch (`FillWavefront`), which takes a schedule: one such
    order for every diagonal (`IsSchedule`);
  - `smith_waterman` itself (`SmithWaterman`);
  - the driver's trial loop (`ScoresAcrossThreadCounts`).

  Both branches are proved to leave H equal to the reference table and to return
  `BestScore` for every schedule. So neither the matrix nor the score depends on the
  thread count or on the order in which a diagonal's cells are visited.
- `ThreadCounts` (threads.dfy) is the driver's thread-count loop over a ten-slot
  buffer.
- `KnownValues` (known_values.dfy) checks one worked example: the score of GATTACA
  against GCATGCU.

The source passes the same `seq_length` as both m and n. The model takes m = |seq1| and
n = |seq2|, which is what the driver's calls amount to, and proves the result for
sequences of any two lengths.

## Model

| member | source | states |
|---|---|---|
| Scoring.GetMax | Assignment-2/q2_/q2.cpp:14-20 | the result is at least each of the four arguments and equal to one of them |
| Scoring.Score | Assignment-2/q2_/q2.cpp:30-34 | every cell of the reference recurrence is non-negative |
| Scoring.TableRecurrence | Assignment-2/q2_/q2.cpp:30-34 | every interior entry of the reference table is GetMax of 0, the diagonal neighbour plus the match/mismatch score, and the upper and left neighbours plus GAP |
| Scoring.TableBorder | Assignment-2/q2_/q2.cpp:128-134 | row 0 and column 0 of the reference table are zero |
| Scoring.TableAt | Assignment-2/q2_/q2.cpp:28-39 | each entry of the materialised table is the recursive score of that cell |
| Scoring.IsTableCell | Assignment-2/q2_/q2.cpp:28-39 | a table with a zero border that satisfies the recurrence has the recursive score in every cell |
| Scoring.IsTableIffTable | Assignment-2/q2_/q2.cpp:28-39 | a table satisfies zero border plus recurrence if and only if it is the reference table, so the recurrence fixes the matrix uniquely |
| Scoring.RowBestBounds | Assignment-2/q2_/q2.cpp:35-37 | the running maximum over a row is non-negative and at least every visited cell, and it is 0 or equal to one of them |
| Scoring.PrefixBestBounds | Assignment-2/q2_/q2.cpp:28-39 | the running maximum over the first i rows bounds every cell seen so far from above, and it is 0 or attained by one of them |
| Scoring.BestOfIsPrefixBest | Assignment-2/q2_/q2.cpp:24-39 | a value is the best interior cell (an upper bound that is 0 or attained) if and only if it equals the row-major running maximum |
| Scoring.BestScoreCharacterised | Assignment-2/q2_/q2.cpp:22-67 | BestScore is exactly the value that bounds every interior score and is either 0 or attained by one |
| Scoring.ScoreBound | Assignment-2/q2_/q2.cpp:30-34 | every cell lies between 0 and MATCH * min(i, j) |
| Scoring.IdenticalDiagonal | Assignment-2/q2_/q2.cpp:30-34 | aligning a string with itself gives the cell (i, i) the score MATCH * i |
| Scoring.IdenticalBestScore | Assignment-2/q2_/q2.cpp:22-67 | a string aligned with itself scores MATCH times its length |
| Scoring.DisjointScoreZero | Assignment-2/q2_/q2.cpp:30-34 | with no character in common, every cell is 0 |
| Scoring.DisjointBestScore | Assignment-2/q2_/q2.cpp:22-67 | with no character in common, the alignment score is 0 |
| Aligner.RecurrenceForcesScore | Assignment-2/q2_/q2.cpp:28-39 | a matrix with a zero border that satisfies the recurrence holds the recursive score in every cell |
| Aligner.RecurrenceIffScoreTable | Assignment-2/q2_/q2.cpp:28-39 | a matrix satisfies zero border plus recurrence if and only if it holds the score table |
| Aligner.NewScoreMatrix | Assignment-2/q2_/q2.cpp:128-134 | a fresh (m+1) x (n+1) matrix with every cell zero |
| Aligner.FillCell | Assignment-2/q2_/q2.cpp:30-34 | given correct neighbours, writes the table value into (i, j), returns it, and changes no other cell |
| Aligner.FillRowMajor | Assignment-2/q2_/q2.cpp:28-39 | the row-major loops leave H equal to the table and return its best interior cell |
| Aligner.DiagRows | Assignment-2/q2_/q2.cpp:42-43 | start..end is exactly the set of rows i with 1 <= i <= m and 1 <= diag - i <= n, so the guard `j >= 1 && j <= n` never rejects a row |
| Aligner.Range | Assignment-2/q2_/q2.cpp:48 | the ascending ordering start, start+1, ..., end, which visits each row once |
| Aligner.AscendingSchedule | Assignment-2/q2_/q2.cpp:41-48 | running every diagonal's loop in ascending order is a valid schedule, so the schedule requirement of the parallel branch can always be met |
| Aligner.FoldMaxBounds | Assignment-2/q2_/q2.cpp:56-58 | the per-diagonal maximum is non-negative, bounds every visited cell, and is 0 or attained |
| Aligner.FoldMaxIsDiagonalBest | Assignment-2/q2_/q2.cpp:45-60 | whatever order the rows of a diagonal are visited in, local_max is that diagonal's best cell |
| Aligner.FillDiagonal | Assignment-2/q2_/q2.cpp:45-60 | for any visiting order of start..end: after the loop every cell of the diagonal holds its table value, cells off the diagonal are unchanged, local_max is the fold over the visited cells, and one write happens per row in the range |
| Aligner.LogStep | Assignment-2/q2_/q2.cpp:41-60 | appending one diagonal's writes to the writes of earlier diagonals keeps the property that every cell below the next diagonal is written exactly once |
| Aligner.WrittenBelowExact | Assignment-2/q2_/q2.cpp:41-60 | under any schedule, the writes of diagonals 2..b-1 cover exactly the interior cells with i + j < b, each once |
| Aligner.WavefrontWritesEachCellOnce | Assignment-2/q2_/q2.cpp:41-60 | under any schedule, the wavefront writes exactly the interior cells, each of them once |
| Aligner.BestBelowStep | Assignment-2/q2_/q2.cpp:62-64 | folding a diagonal's best into max_score keeps max_score the best over all smaller diagonals |
| Aligner.BestBelowComplete | Assignment-2/q2_/q2.cpp:41-65 | after the last diagonal, max_score equals the row-major best of the table |
| Aligner.FillWavefront | Assignment-2/q2_/q2.cpp:41-65 | for every schedule (any visiting order of each diagonal's rows), the wavefront loops leave H equal to the table and return its best interior cell |
| Aligner.SmithWaterman | Assignment-2/q2_/q2.cpp:22-67 | for every thread count and, with more than one thread, every schedule of the dynamic parallel loop: H ends up holding the score table, satisfies the recurrence, keeps its border, and max_score is BestScore |
| Aligner.ScoresAcrossThreadCounts | Assignment-2/q2_/q2.cpp:125-160 | every trial, on a freshly zeroed matrix and under whatever schedule its threads follow, records the same score BestScore, which is what makes the "consistent" report true |
| ThreadCounts.Pow2StrictlyIncreasing | Assignment-2/q2_/q2.cpp:115 | doubling makes the thread counts strictly increasing |
| ThreadCounts.Pow2Bound | Assignment-2/q2_/q2.cpp:113-115 | no count within the ten-slot buffer exceeds 1024 |
| ThreadCounts.ThreadCounts | Assignment-2/q2_/q2.cpp:113-117 | at most ten counts; the k-th is 2^k; each is at most max_threads; the loop stops either full or because the next count exceeds max_threads; the list starts at 1 when max_threads >= 1 and is strictly increasing |
| KnownValues.GattacaIsTable | Assignment-2/q2_/q2.cpp:28-39 | the hand-computed 8 x 8 matrix for GATTACA / GCATGCU satisfies the recurrence with a zero border |
| KnownValues.GattacaBest | Assignment-2/q2_/q2.cpp:35-37 | its best interior cell is 5 |
| KnownValues.GattacaScore | Assignment-2/q2_/q2.cpp:22-67 | the score of GATTACA against GCATGCU is 5 with MATCH = 2, MISMATCH = -1, GAP = -1, for every thread count (by Aligner.SmithWaterman) |

## Left out

- Concurrency: the OpenMP runtime, `omp_set_num_threads` and the threads themselves are not modelled. A parallel diagonal is modelled as a sequential visit of its rows in an arbitrary order. The orders of all diagonals form a schedule parameter, and every result is proved for every schedule. The barrier at the end of each `parallel for` is the sequencing of the diagonals. Rows of one diagonal read only cells of earlier diagonals, so no interleaving can change a value. This independence is what makes the sequential model of a diagonal sound, but it is not itself proved about threads.
- `reduction(max:local_max)` is modelled as one fold in the visiting order. Max is commutative and associative, and FoldMaxIsDiagonalBest is proved for every order.
- Aligner.SmithWaterman: 32-bit `int` overflow is not modelled; cells are unbounded integers. Scoring.ScoreBound shows that every cell stays between 0 and 2 * min(m, n), so no overflow can happen for sequences shorter than 2^30.
- Aligner.WavefrontWritesEachCellOnce: "each interior cell is written exactly once" is stated over the loops' iteration space (the sequence of cells the diagonals visit under the same schedule the method follows). Aligner.FillDiagonal does not keep a runtime log of its writes. FillDiagonal's `writes == |order|` counter plus its frame tie the two together.
- Aligner.SmithWaterman takes m and n to be the lengths of the two sequences. It requires H to have a zero border, as every caller in the driver provides (Aligner.NewScoreMatrix).
- The driver's argument parsing (`atoi`, the usage and error messages), `srand`/`rand` sequence generation with the copied stretch at positions 50..99, `omp_get_wtime` timing, speedup and efficiency arithmetic in floating point, and all printing are not modelled. Allocation failure and the `delete[]` calls are not modelled either; allocation itself is (Aligner.NewScoreMatrix, ThreadCounts.ThreadCounts). The sequences and thread list are parameters instead.
- The other files of the repository (the other assignments and the mini-projects) are not part of this model.
- The worked example is sometimes quoted with a score of 6. With this program's constants (MATCH 2, MISMATCH -1, GAP -1) the recurrence gives 5, as KnownValues.GattacaScore proves for the code as written.
- The source's jagged `int**` matrix (one `new int[]` per row, q2.cpp:128-130) is one `array2<int>` here. This drops only aliasing between rows, which the separate allocation of each row rules out in the source anyway.
