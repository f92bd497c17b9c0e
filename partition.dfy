/**
 * The work split every distributed matrix and vector operation repeats inline.
 *
 * For an extent of `rows` rows and a group of `parCount` processes, the
 * operations clamp the participant count to `min(parCount, rows)`, give every
 * rank the half-open block `[rank * rpp, rank * rpp + rpp)` with
 * `rpp = rows / participants`, and (in multiply, add and subtract only) run a
 * second pass over one leftover row per rank.  `adjoint` and
 * `vector::scalar_vector_mult` use the same block formula without the clamp.
 *
 * The functions below compute what the source computes; the lemmas state
 * which rows each rank gets, and the corrected variants at the end are the
 * split the modelled operations run once their bugs are fixed.
 */
module Partition {
  import opened Wrappers
  import Layout

  datatype Range = Range(start: int, end: int) {
    predicate Contains(k: int) { start <= k < end }
  }

  /** `number_of_processes` after the clamp: the smaller of the group size and the row count. */
  function Participants(parCount: nat, rows: nat): (p: nat)
    ensures p <= parCount && p <= rows
    ensures p == parCount || p == rows
    ensures 0 < parCount && 0 < rows ==> 0 < p
  {
    if parCount > rows then rows else parCount
  }

  /** The block of rank `r` when `n` items are split among `p` ranks: `[r * (n / p), r * (n / p) + n / p)`. */
  function Block(n: nat, p: nat, r: nat): Range
    requires 0 < p
  {
    var rpp := n / p;
    Range(rpp * r, rpp * r + rpp)
  }

  /** Consecutive ranks' blocks are adjacent. */
  lemma BlockNext(n: nat, p: nat, r: nat)
    requires 0 < p
    ensures Block(n, p, r).end == Block(n, p, r + 1).start
  {
    assert n / p * (r + 1) == n / p * r + n / p;
  }

  /** The blocks of ranks 0 .. p-1 start at 0 and end where the remainder `n % p` starts. */
  lemma BlocksSpan(n: nat, p: nat)
    requires 0 < p
    ensures Block(n, p, 0).start == 0 && Block(n, p, p).start == n - n % p
  {
  }

  /** The ranks among `0..p-1` whose block holds item `k`. */
  function BlockOwners(n: nat, p: nat, k: int): set<nat>
    requires 0 < p
  {
    set r: nat | r < p && Block(n, p, r).Contains(k)
  }

  /** Each of the `p` blocks has `n / p` items and lies inside `[0, n - n % p)`. */
  lemma BlockInBounds(n: nat, p: nat, r: nat)
    requires 0 < p && r < p
    ensures 0 <= Block(n, p, r).start <= Block(n, p, r).end <= n - n % p <= n
    ensures Block(n, p, r).end - Block(n, p, r).start == n / p
  {
    Layout.MulMono(r + 1, p, n / p);
    Layout.MulMono(0, r, n / p);
  }

  /** Blocks of different ranks do not overlap: the lower rank's block ends where or before the higher one's starts. */
  lemma BlocksDisjoint(n: nat, p: nat, r1: nat, r2: nat)
    requires 0 < p && r1 < r2
    ensures Block(n, p, r1).end <= Block(n, p, r2).start
    ensures forall k :: !(Block(n, p, r1).Contains(k) && Block(n, p, r2).Contains(k))
  {
    Layout.MulMono(r1 + 1, r2, n / p);
  }

  /**
   * The blocks of ranks `0..p-1` together cover `[0, n - n % p)` exactly once
   * (owner `k / (n / p)`), and no block covers one of the last `n % p` items.
   */
  lemma BlockCoverage(n: nat, p: nat, k: int)
    requires 0 < p && 0 <= k < n
    ensures k < n - n % p ==> n / p > 0 && BlockOwners(n, p, k) == {k / (n / p)}
    ensures k >= n - n % p ==> BlockOwners(n, p, k) == {}
  {
    var rpp := n / p;
    if k < n - n % p {
      assert rpp > 0;
      var q := k / rpp;
      assert q < p by {
        if q >= p {
          Layout.MulMono(p, q, rpp);
        }
      }
      forall r: nat | r < p
        ensures Block(n, p, r).Contains(k) <==> r == q
      {
        if Block(n, p, r).Contains(k) {
          Layout.DivInBlock(k, r, rpp);
        }
      }
    } else {
      forall r: nat | r < p
        ensures !Block(n, p, r).Contains(k)
      {
        BlockInBounds(n, p, r);
      }
    }
  }

  // ---------------------------------------------------------------------
  // Row split of multiply, add, subtract, transpose, scalar_matrix_mult and
  // matrix_is_equal, as written.

  /** `rpp`: rows per rank after the clamp. */
  function RowsPerRank(rows: nat, parCount: nat): nat
    requires 0 < rows && 0 < parCount
  {
    rows / Participants(parCount, rows)
  }

  /** The base range `[start, end)` a rank computes. */
  function BaseRange(rows: nat, parCount: nat, rank: nat): Range
    requires 0 < rows && 0 < parCount
  {
    Block(rows, Participants(parCount, rows), rank)
  }

  /** `leftover`: the rows the base pass does not reach. */
  function Leftover(rows: nat, parCount: nat): nat
    requires 0 < rows && 0 < parCount
  {
    rows % Participants(parCount, rows)
  }

  /** The row of the leftover pass of multiply, add and subtract, as written: taken by every rank `<= leftover`. */
  function LeftoverRow(rows: nat, parCount: nat, rank: nat): Option<int>
    requires 0 < rows && 0 < parCount
  {
    var leftover := Leftover(rows, parCount);
    if leftover != 0 && rank <= leftover then Some(rank + (rows - leftover)) else None
  }

  /** A rank below the clamped count gets a base range of `rpp` rows inside `[0, rows)`. */
  lemma BaseRangeInBounds(rows: nat, parCount: nat, rank: nat)
    requires 0 < rows && 0 < parCount && rank < Participants(parCount, rows)
    ensures 0 <= BaseRange(rows, parCount, rank).start
    ensures BaseRange(rows, parCount, rank).end <= rows - Leftover(rows, parCount)
    ensures BaseRange(rows, parCount, rank).end - BaseRange(rows, parCount, rank).start == RowsPerRank(rows, parCount)
    ensures RowsPerRank(rows, parCount) >= 1
  {
    BlockInBounds(rows, Participants(parCount, rows), rank);
  }

  /** Base ranges of distinct ranks are disjoint. */
  lemma BaseRangesDisjoint(rows: nat, parCount: nat, r1: nat, r2: nat, k: int)
    requires 0 < rows && 0 < parCount && r1 != r2
    ensures !(BaseRange(rows, parCount, r1).Contains(k) && BaseRange(rows, parCount, r2).Contains(k))
  {
    if r1 < r2 {
      BlocksDisjoint(rows, Participants(parCount, rows), r1, r2);
    } else {
      BlocksDisjoint(rows, Participants(parCount, rows), r2, r1);
    }
  }

  /**
   * Coverage of the base pass over the whole group: row `k < rows - leftover`
   * is taken by rank `k / rpp` alone, one of the last `leftover` rows by no
   * rank below the clamped count.
   */
  lemma BaseCoverage(rows: nat, parCount: nat, k: int)
    requires 0 < rows && 0 < parCount && 0 <= k < rows
    ensures var owners := set r: nat | r < Participants(parCount, rows) && BaseRange(rows, parCount, r).Contains(k);
      (k < rows - Leftover(rows, parCount) ==> owners == {k / RowsPerRank(rows, parCount)}) &&
      (k >= rows - Leftover(rows, parCount) ==> owners == {})
  {
    var p := Participants(parCount, rows);
    BlockCoverage(rows, p, k);
    assert (set r: nat | r < p && BaseRange(rows, parCount, r).Contains(k)) == BlockOwners(rows, p, k);
  }

  /** When the clamped count divides the row count, the base ranges cover `[0, rows)` exactly once. */
  lemma DivisibleExactCover(rows: nat, parCount: nat, k: int)
    requires 0 < rows && 0 < parCount && 0 <= k < rows
    requires rows % Participants(parCount, rows) == 0
    ensures (set r: nat | r < Participants(parCount, rows) && BaseRange(rows, parCount, r).Contains(k)) == {k / RowsPerRank(rows, parCount)}
  {
    BaseCoverage(rows, parCount, k);
  }

  /**
   * The clamp does not make the surplus ranks idle: when the group is larger
   * than the row count, every rank from `rows` on still gets the one-row base
   * range `[rank, rank + 1)`, entirely past the last row.
   */
  lemma SurplusRankPastEnd(rows: nat, parCount: nat, rank: nat)
    requires 0 < rows && Participants(parCount, rows) <= rank < parCount
    ensures RowsPerRank(rows, parCount) == 1
    ensures BaseRange(rows, parCount, rank) == Range(rank, rank + 1)
    ensures BaseRange(rows, parCount, rank).start >= rows
  {
  }

  /** Which ranks get a leftover row, and where that row is. */
  lemma LeftoverRowCases(rows: nat, parCount: nat, rank: nat)
    requires 0 < rows && 0 < parCount && rank < parCount
    ensures var leftover := Leftover(rows, parCount);
      (rank < leftover ==> LeftoverRow(rows, parCount, rank).Some? &&
                           rows - leftover <= LeftoverRow(rows, parCount, rank).value < rows) &&
      (0 < leftover == rank ==> LeftoverRow(rows, parCount, rank) == Some(rows)) &&
      (rank > leftover || leftover == 0 ==> LeftoverRow(rows, parCount, rank) == None)
  {
  }

  /**
   * Whenever there are leftover rows at all, the rank numbered `leftover`
   * exists in the group and its leftover row is `rows`, one past the last row.
   */
  lemma LeftoverRowPastEnd(rows: nat, parCount: nat)
    requires 0 < rows && 0 < parCount && Leftover(rows, parCount) != 0
    ensures Leftover(rows, parCount) < parCount
    ensures LeftoverRow(rows, parCount, Leftover(rows, parCount)) == Some(rows)
  {
  }

  /** Each of the last `leftover` rows is the leftover row of exactly one rank, `k - (rows - leftover)`. */
  lemma LeftoverRowsTakenOnce(rows: nat, parCount: nat, k: int)
    requires 0 < rows && 0 < parCount
    requires rows - Leftover(rows, parCount) <= k < rows
    ensures (set r: nat | r < parCount && LeftoverRow(rows, parCount, r) == Some(k)) == {k - (rows - Leftover(rows, parCount))}
  {
    var leftover := Leftover(rows, parCount);
    var owner := k - (rows - leftover);
    forall r: nat | r < parCount
      ensures LeftoverRow(rows, parCount, r) == Some(k) <==> r == owner
    {
    }
  }

  /** Rank `rank` processes row `k` in the split as written: its base range, and its leftover row if it takes one. */
  predicate WrittenBy(rows: nat, parCount: nat, rank: nat, k: int)
    requires 0 < rows && 0 < parCount
  {
    BaseRange(rows, parCount, rank).Contains(k) || LeftoverRow(rows, parCount, rank) == Some(k)
  }

  /**
   * One past the last row the split as written reaches over the whole group:
   * the surplus ranks of a group larger than the row count, or the leftover
   * row of rank `leftover`, take it past `rows`.
   */
  function WrittenReach(rows: nat, parCount: nat): nat
    requires 0 < rows && 0 < parCount
  {
    if parCount > rows then parCount else if Leftover(rows, parCount) != 0 then rows + 1 else rows
  }

  /** The rank that processes row `k` in the split as written. */
  function WrittenOwner(rows: nat, parCount: nat, k: nat): nat
    requires 0 < rows && 0 < parCount
  {
    var leftover := Leftover(rows, parCount);
    if leftover != 0 && rows - leftover <= k then k - (rows - leftover) else k / RowsPerRank(rows, parCount)
  }

  /**
   * As written, the ranks of the group process exactly the rows
   * `[0, WrittenReach)`, each of them by exactly one rank, WrittenOwner.
   */
  lemma WrittenExactlyOnce(rows: nat, parCount: nat, rank: nat, k: int)
    requires 0 < rows && 0 < parCount && rank < parCount
    ensures WrittenBy(rows, parCount, rank, k) <==> 0 <= k < WrittenReach(rows, parCount) && WrittenOwner(rows, parCount, k) == rank
    ensures 0 <= k < WrittenReach(rows, parCount) ==> WrittenOwner(rows, parCount, k) < parCount
  {
    var p := Participants(parCount, rows);
    if parCount > rows {
      assert p == rows && rows / rows == 1 && rows % rows == 0;
      assert BaseRange(rows, parCount, rank) == Range(rank, rank + 1);
    } else {
      var leftover := Leftover(rows, parCount);
      BlockInBounds(rows, p, rank);
      if 0 <= k < rows - leftover {
        BlockCoverage(rows, p, k);
        assert rank in BlockOwners(rows, p, k) <==> BaseRange(rows, parCount, rank).Contains(k);
      }
    }
  }

  /** Every row a rank of the group processes as written lies below WrittenReach. */
  lemma WrittenInReach(rows: nat, parCount: nat, rank: nat)
    requires 0 < rows && 0 < parCount && rank < parCount
    ensures 0 <= BaseRange(rows, parCount, rank).start <= BaseRange(rows, parCount, rank).end <= WrittenReach(rows, parCount)
    ensures LeftoverRow(rows, parCount, rank).Some? ==>
      0 <= LeftoverRow(rows, parCount, rank).value < WrittenReach(rows, parCount)
  {
    var p := Participants(parCount, rows);
    if parCount > rows {
      assert p == rows && rows / rows == 1 && rows % rows == 0;
      assert BaseRange(rows, parCount, rank) == Range(rank, rank + 1);
    } else {
      BlockInBounds(rows, p, rank);
    }
  }

  // ---------------------------------------------------------------------
  // Column split of adjoint and element split of scalar_vector_mult: the
  // same block formula, without the clamp.

  /** The range a rank computes from the unclamped group size. */
  function UnclampedRange(n: nat, parCount: nat, rank: nat): Range
    requires 0 < parCount
  {
    Block(n, parCount, rank)
  }

  /**
   * Without the clamp every rank's range is inside `[0, n)`, the ranges
   * cover `[0, n - n % parCount)` exactly once and nothing beyond; in
   * particular a group larger than `n` leaves every item unassigned.
   */
  lemma UnclampedCoverage(n: nat, parCount: nat, k: int)
    requires 0 < parCount && 0 <= k < n
    ensures k < n - n % parCount ==> BlockOwners(n, parCount, k) == {k / (n / parCount)}
    ensures k >= n - n % parCount ==> BlockOwners(n, parCount, k) == {}
    ensures parCount > n ==> BlockOwners(n, parCount, k) == {}
  {
    BlockCoverage(n, parCount, k);
  }

  // ---------------------------------------------------------------------
  // The corrected split: surplus ranks idle, leftover rows for ranks
  // strictly below `leftover`.

  /** The base range of a rank, empty for the ranks the clamp leaves out. */
  function RankRange(rows: nat, parCount: nat, rank: nat): Range
    requires 0 < rows && 0 < parCount
  {
    if rank < Participants(parCount, rows) then BaseRange(rows, parCount, rank) else Range(0, 0)
  }

  /** The leftover row of a rank, given only to the ranks strictly below `leftover`. */
  function FixedLeftoverRow(rows: nat, parCount: nat, rank: nat): Option<int>
    requires 0 < rows && 0 < parCount
  {
    var leftover := Leftover(rows, parCount);
    if rank < leftover then Some(rank + (rows - leftover)) else None
  }

  /** Rank `rank` processes row `k` in the corrected split. */
  predicate Owns(rows: nat, parCount: nat, rank: nat, k: int)
    requires 0 < rows && 0 < parCount
  {
    RankRange(rows, parCount, rank).Contains(k) || FixedLeftoverRow(rows, parCount, rank) == Some(k)
  }

  /** The rank that processes row `k` in the corrected split. */
  function Owner(rows: nat, parCount: nat, k: int): nat
    requires 0 < rows && 0 < parCount && 0 <= k < rows
  {
    var leftover := Leftover(rows, parCount);
    if k < rows - leftover then k / RowsPerRank(rows, parCount) else k - (rows - leftover)
  }

  /** In the corrected split a rank processes only rows of the matrix. */
  lemma OwnsInBounds(rows: nat, parCount: nat, rank: nat, k: int)
    requires 0 < rows && 0 < parCount && Owns(rows, parCount, rank, k)
    ensures 0 <= k < rows
  {
    if rank < Participants(parCount, rows) {
      BaseRangeInBounds(rows, parCount, rank);
    }
  }

  /** In the corrected split every row of the matrix is processed by exactly one rank of the group, its Owner. */
  lemma OwnsExactlyOnce(rows: nat, parCount: nat, k: int)
    requires 0 < rows && 0 < parCount && 0 <= k < rows
    ensures Owner(rows, parCount, k) < parCount
    ensures (set r: nat | r < parCount && Owns(rows, parCount, r, k)) == {Owner(rows, parCount, k)}
  {
    var p := Participants(parCount, rows);
    var leftover := Leftover(rows, parCount);
    var owner := Owner(rows, parCount, k);
    BlockCoverage(rows, p, k);
    forall r: nat | r < parCount
      ensures Owns(rows, parCount, r, k) <==> r == owner
    {
      if r < p {
        assert RankRange(rows, parCount, r).Contains(k) <==> r in BlockOwners(rows, p, k);
      }
    }
  }
}
