/**
 * What a distributed row operation leaves in its result buffer.
 *
 * Every row-split operation computes, for the rows a rank is assigned, the
 * same values as the full result `t` would hold there, and leaves the other
 * positions as they were.  Rows are blocks of `w` consecutive positions.
 * `GroupWrite` is the buffer after ranks 0 .. n-1 have each done their share;
 * since the shares of distinct ranks are disjoint, the order in which the
 * ranks run does not change the final buffer.  Rows here are the rows of the
 * split, which may run past the operation's own row count: add, subtract and
 * multiply split one extent of the matrix and write blocks of the other.
 */
module Distribution {
  import opened Wrappers
  import Layout
  import Partition

  /**
   * BaseOnly: each rank processes its base range only, as transpose,
   * scalar_matrix_mult and matrix_is_equal do.  WithLeftover: ranks below
   * `leftover` also process one leftover row, as the corrected leftover pass
   * of multiply, add and subtract does.  AsWritten: the split of multiply,
   * add and subtract as the source has it, where every rank runs with its
   * unclamped start and every rank `<= leftover` takes a leftover row.
   */
  datatype Split = BaseOnly | WithLeftover | AsWritten

  /** Rank `rank` processes row `i`. */
  predicate Assigned(split: Split, rows: nat, parCount: nat, rank: nat, i: int)
    requires 0 < rows && 0 < parCount
  {
    if split == AsWritten then Partition.WrittenBy(rows, parCount, rank, i)
    else
      Partition.RankRange(rows, parCount, rank).Contains(i) ||
      (split == WithLeftover && Partition.Owns(rows, parCount, rank, i))
  }

  /** How many leading rows the whole group processes. */
  function Covered(split: Split, rows: nat, parCount: nat): (c: nat)
    requires 0 < rows && 0 < parCount
    ensures split != AsWritten ==> c <= rows
    ensures split == WithLeftover ==> c == rows
    ensures split == BaseOnly ==> c == rows - rows % Partition.Participants(parCount, rows)
    ensures split == AsWritten ==> rows <= c
  {
    match split
    case WithLeftover => rows
    case BaseOnly => rows - Partition.Leftover(rows, parCount)
    case AsWritten => Partition.WrittenReach(rows, parCount)
  }

  /** The rank that processes row `i`, or `parCount` when no rank does. */
  function RowOwner(split: Split, rows: nat, parCount: nat, i: int): nat
    requires 0 < rows && 0 < parCount
  {
    if !(0 <= i < Covered(split, rows, parCount)) then parCount
    else if split == WithLeftover then Partition.Owner(rows, parCount, i)
    else if split == AsWritten then Partition.WrittenOwner(rows, parCount, i)
    else i / Partition.RowsPerRank(rows, parCount)
  }

  /**
   * Every row is processed by exactly one rank, RowOwner, when it is among the
   * covered rows, and by no rank otherwise.
   */
  lemma AssignedIffOwner(split: Split, rows: nat, parCount: nat, rank: nat, i: int)
    requires 0 < rows && 0 < parCount && rank < parCount
    ensures Assigned(split, rows, parCount, rank, i) <==> RowOwner(split, rows, parCount, i) == rank
    ensures RowOwner(split, rows, parCount, i) < parCount <==> 0 <= i < Covered(split, rows, parCount)
  {
    if split == WithLeftover {
      LeftoverOwner(rows, parCount, rank, i);
    } else if split == AsWritten {
      Partition.WrittenExactlyOnce(rows, parCount, rank, i);
    } else {
      BaseOwner(rows, parCount, rank, i);
    }
  }

  lemma LeftoverOwner(rows: nat, parCount: nat, rank: nat, i: int)
    requires 0 < rows && 0 < parCount && rank < parCount
    ensures Assigned(WithLeftover, rows, parCount, rank, i) <==> RowOwner(WithLeftover, rows, parCount, i) == rank
    ensures RowOwner(WithLeftover, rows, parCount, i) < parCount <==> 0 <= i < rows
  {
    assert Assigned(WithLeftover, rows, parCount, rank, i) <==> Partition.Owns(rows, parCount, rank, i);
    if 0 <= i < rows {
      var owners := set r: nat | r < parCount && Partition.Owns(rows, parCount, r, i);
      Partition.OwnsExactlyOnce(rows, parCount, i);
      assert RowOwner(WithLeftover, rows, parCount, i) == Partition.Owner(rows, parCount, i);
      assert rank in owners <==> Partition.Owns(rows, parCount, rank, i);
    } else if Partition.Owns(rows, parCount, rank, i) {
      Partition.OwnsInBounds(rows, parCount, rank, i);
    }
  }

  lemma BaseOwner(rows: nat, parCount: nat, rank: nat, i: int)
    requires 0 < rows && 0 < parCount && rank < parCount
    ensures Assigned(BaseOnly, rows, parCount, rank, i) <==> RowOwner(BaseOnly, rows, parCount, i) == rank
    ensures RowOwner(BaseOnly, rows, parCount, i) < parCount <==> 0 <= i < Covered(BaseOnly, rows, parCount)
  {
    var p := Partition.Participants(parCount, rows);
    var range := Partition.RankRange(rows, parCount, rank);
    if rank < p {
      Partition.BlockInBounds(rows, p, rank);
      assert range == Partition.Block(rows, p, rank);
    }
    if 0 <= i < rows {
      Partition.BlockCoverage(rows, p, i);
      assert rank < p ==> (rank in Partition.BlockOwners(rows, p, i) <==> range.Contains(i));
      if i < rows - rows % p {
        assert i / Partition.RowsPerRank(rows, parCount) in Partition.BlockOwners(rows, p, i);
      }
    }
  }

  /** The buffer `s` with positions [from, to) taken from `t`. */
  function Between(t: seq<int>, s: seq<int>, from: int, to: int): (r: seq<int>)
    requires |t| == |s|
    ensures |r| == |s|
  {
    seq(|s|, k requires 0 <= k < |s| => if from <= k < to then t[k] else s[k])
  }

  /** Writing the next position of the result extends the written range by one. */
  lemma BetweenStep(t: seq<int>, s: seq<int>, from: int, to: int)
    requires |t| == |s| && 0 <= to < |s| && from <= to
    ensures Between(t, s, from, to)[to := t[to]] == Between(t, s, from, to + 1)
  {
  }

  /** Two adjacent written ranges make one. */
  lemma BetweenJoin(t: seq<int>, s: seq<int>, a: int, b: int, c: int)
    requires |t| == |s| && a <= b <= c
    ensures Between(t, Between(t, s, a, b), b, c) == Between(t, s, a, c)
  {
  }

  lemma BetweenEmpty(t: seq<int>, s: seq<int>, from: int)
    requires |t| == |s|
    ensures Between(t, s, from, from) == s
  {
  }

  /** One rank's share: the rows it is assigned taken from `t`, every other position from `s`. */
  function RankWrite(split: Split, t: seq<int>, s: seq<int>, rows: nat, parCount: nat, rank: nat, w: nat): (r: seq<int>)
    requires |t| == |s| && 0 < rows && 0 < parCount
    ensures |r| == |s|
  {
    seq(|s|, k requires 0 <= k < |s| =>
      if w > 0 && Assigned(split, rows, parCount, rank, k / w) then t[k] else s[k])
  }

  /** The buffer after ranks 0 .. n-1 have each done their share, starting from `s`. */
  function GroupWrite(split: Split, t: seq<int>, s: seq<int>, rows: nat, parCount: nat, w: nat, n: nat): (r: seq<int>)
    requires |t| == |s| && 0 < rows && 0 < parCount
    ensures |r| == |s|
    decreases n
  {
    if n == 0 then s
    else RankWrite(split, t, GroupWrite(split, t, s, rows, parCount, w, n - 1), rows, parCount, n - 1, w)
  }

  /** A rank's base range [start, end) of rows is the block of positions [start * w, end * w). */
  lemma BaseShare(t: seq<int>, s: seq<int>, rows: nat, parCount: nat, rank: nat, w: nat)
    requires |t| == |s| && 0 < rows && 0 < parCount
    ensures var range := Partition.RankRange(rows, parCount, rank);
      RankWrite(BaseOnly, t, s, rows, parCount, rank, w) == Between(t, s, range.start * w, range.end * w)
  {
    var range := Partition.RankRange(rows, parCount, rank);
    if rank < Partition.Participants(parCount, rows) {
      Partition.BaseRangeInBounds(rows, parCount, rank);
    }
    if w > 0 {
      forall k | 0 <= k < |s|
        ensures range.start * w <= k < range.end * w <==> range.Contains(k / w)
      {
        Layout.RowOfPosition(w, k, range.start, range.end);
      }
    }
  }

  /**
   * With the leftover pass a rank's share is its leftover row, if it has
   * one, followed by its base range.
   */
  lemma LeftoverShare(t: seq<int>, s: seq<int>, rows: nat, parCount: nat, rank: nat, w: nat)
    requires |t| == |s| && 0 < rows && 0 < parCount
    ensures var range := Partition.RankRange(rows, parCount, rank);
      var extra := Partition.FixedLeftoverRow(rows, parCount, rank);
      var s' := if extra.Some? then Between(t, s, extra.value * w, (extra.value + 1) * w) else s;
      RankWrite(WithLeftover, t, s, rows, parCount, rank, w) == Between(t, s', range.start * w, range.end * w)
  {
    var range := Partition.RankRange(rows, parCount, rank);
    var extra := Partition.FixedLeftoverRow(rows, parCount, rank);
    if rank < Partition.Participants(parCount, rows) {
      Partition.BaseRangeInBounds(rows, parCount, rank);
    }
    if w > 0 {
      forall k | 0 <= k < |s|
        ensures range.start * w <= k < range.end * w <==> range.Contains(k / w)
        ensures extra.Some? ==> (extra.value * w <= k < (extra.value + 1) * w <==> extra.value == k / w)
      {
        Layout.RowOfPosition(w, k, range.start, range.end);
        if extra.Some? {
          Layout.RowOfPosition(w, k, extra.value, extra.value + 1);
        }
      }
    }
  }

  /**
   * As written, a rank's share is its leftover row, if it takes one,
   * followed by its base range, which it keeps even when it is a surplus rank.
   */
  lemma AsWrittenShare(t: seq<int>, s: seq<int>, rows: nat, parCount: nat, rank: nat, w: nat)
    requires |t| == |s| && 0 < rows && 0 < parCount
    ensures var range := Partition.BaseRange(rows, parCount, rank);
      var extra := Partition.LeftoverRow(rows, parCount, rank);
      var s' := if extra.Some? then Between(t, s, extra.value * w, (extra.value + 1) * w) else s;
      RankWrite(AsWritten, t, s, rows, parCount, rank, w) == Between(t, s', range.start * w, range.end * w)
  {
    var range := Partition.BaseRange(rows, parCount, rank);
    var extra := Partition.LeftoverRow(rows, parCount, rank);
    Layout.MulMono(0, rank, Partition.RowsPerRank(rows, parCount));
    if w > 0 {
      forall k | 0 <= k < |s|
        ensures range.start * w <= k < range.end * w <==> range.Contains(k / w)
        ensures extra.Some? ==> (extra.value * w <= k < (extra.value + 1) * w <==> extra.value == k / w)
      {
        Layout.RowOfPosition(w, k, range.start, range.end);
        if extra.Some? {
          Layout.RowOfPosition(w, k, extra.value, extra.value + 1);
        }
      }
    }
  }

  /** After ranks 0 .. n-1, a position holds t's value exactly when its row's owner is among them. */
  lemma {:induction false} GroupWriteOwned(split: Split, t: seq<int>, s: seq<int>, rows: nat, parCount: nat, w: nat, n: nat)
    requires |t| == |s| && 0 < rows && 0 < parCount && n <= parCount
    ensures forall k :: 0 <= k < |s| ==>
      GroupWrite(split, t, s, rows, parCount, w, n)[k] ==
        if w > 0 && RowOwner(split, rows, parCount, k / w) < n then t[k] else s[k]
  {
    if n > 0 {
      GroupWriteOwned(split, t, s, rows, parCount, w, n - 1);
      forall k | 0 <= k < |s| && w > 0
        ensures Assigned(split, rows, parCount, n - 1, k / w) <==> RowOwner(split, rows, parCount, k / w) == n - 1
      {
        AssignedIffOwner(split, rows, parCount, n - 1, k / w);
      }
    }
  }

  /**
   * When every rank of the group has done its share, exactly the first
   * Covered rows hold t's values and everything after them is untouched.
   */
  lemma GroupWriteCovers(split: Split, t: seq<int>, s: seq<int>, rows: nat, parCount: nat, w: nat)
    requires |t| == |s| && 0 < rows && 0 < parCount
    ensures GroupWrite(split, t, s, rows, parCount, w, parCount) == Between(t, s, 0, Covered(split, rows, parCount) * w)
  {
    GroupWriteOwned(split, t, s, rows, parCount, w, parCount);
    if w > 0 {
      forall k | 0 <= k < |s|
        ensures RowOwner(split, rows, parCount, k / w) < parCount <==> 0 <= k < Covered(split, rows, parCount) * w
      {
        AssignedIffOwner(split, rows, parCount, 0, k / w);
        Layout.RowOfPosition(w, k, 0, Covered(split, rows, parCount));
      }
    }
  }

  /** With the leftover pass, a group over a buffer of exactly rows * w positions produces all of t. */
  lemma GroupWriteComplete(t: seq<int>, s: seq<int>, rows: nat, parCount: nat, w: nat)
    requires |t| == |s| == rows * w && 0 < rows && 0 < parCount
    ensures GroupWrite(WithLeftover, t, s, rows, parCount, w, parCount) == t
  {
    GroupWriteCovers(WithLeftover, t, s, rows, parCount, w);
  }

  /** The buffer after the ranks in `order` have each done their share, in that order, starting from `s`. */
  function WriteInOrder(split: Split, t: seq<int>, s: seq<int>, rows: nat, parCount: nat, w: nat, order: seq<nat>): (r: seq<int>)
    requires |t| == |s| && 0 < rows && 0 < parCount
    ensures |r| == |s|
    decreases |order|
  {
    if order == [] then s
    else RankWrite(split, t, WriteInOrder(split, t, s, rows, parCount, w, order[..|order| - 1]), rows, parCount, order[|order| - 1], w)
  }

  /** Whatever the order, a position holds t's value exactly when its row's owner is among the ranks that ran. */
  lemma {:induction false} WriteInOrderOwned(split: Split, t: seq<int>, s: seq<int>, rows: nat, parCount: nat, w: nat, order: seq<nat>)
    requires |t| == |s| && 0 < rows && 0 < parCount
    requires forall i :: 0 <= i < |order| ==> order[i] < parCount
    ensures forall k :: 0 <= k < |s| ==>
      WriteInOrder(split, t, s, rows, parCount, w, order)[k] ==
        if w > 0 && RowOwner(split, rows, parCount, k / w) in order then t[k] else s[k]
    decreases |order|
  {
    if order != [] {
      var front, last := order[..|order| - 1], order[|order| - 1];
      WriteInOrderOwned(split, t, s, rows, parCount, w, front);
      assert order == front + [last];
      forall k | 0 <= k < |s| && w > 0
        ensures Assigned(split, rows, parCount, last, k / w) <==> RowOwner(split, rows, parCount, k / w) == last
        ensures RowOwner(split, rows, parCount, k / w) in order <==>
          RowOwner(split, rows, parCount, k / w) in front || RowOwner(split, rows, parCount, k / w) == last
      {
        AssignedIffOwner(split, rows, parCount, last, k / w);
      }
    }
  }

  /**
   * The shares of distinct ranks are disjoint, so the order in which the
   * ranks run does not matter: any schedule in which every rank of the group
   * runs, each any number of times, leaves the buffer GroupWrite describes.
   */
  lemma AnyOrderCovers(split: Split, t: seq<int>, s: seq<int>, rows: nat, parCount: nat, w: nat, order: seq<nat>)
    requires |t| == |s| && 0 < rows && 0 < parCount
    requires forall i :: 0 <= i < |order| ==> order[i] < parCount
    requires forall r: nat :: r < parCount ==> r in order
    ensures WriteInOrder(split, t, s, rows, parCount, w, order) == GroupWrite(split, t, s, rows, parCount, w, parCount)
  {
    WriteInOrderOwned(split, t, s, rows, parCount, w, order);
    GroupWriteOwned(split, t, s, rows, parCount, w, parCount);
    forall k | 0 <= k < |s| && w > 0
      ensures RowOwner(split, rows, parCount, k / w) in order <==> RowOwner(split, rows, parCount, k / w) < parCount
    {
    }
  }
}
