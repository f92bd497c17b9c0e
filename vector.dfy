/**
 * `vector::scalar_vector_mult`: each rank scales the elements of its block
 * of the unclamped split of the vector into a new vector.
 */
module Vector {
  import Layout
  import Partition
  import opened Distribution
  import Elementwise

  /** The loop of scalar_vector_mult over elements [lo, hi): those elements of the result get `v[i] * scaler`. */
  method ScaleElements(v: array<int>, scaler: int, result: array<int>, lo: nat, hi: nat)
    requires v != result && v.Length == result.Length
    requires lo <= hi <= v.Length
    modifies result
    ensures result[..] == Between(Elementwise.Scaled(v[..], scaler), old(result[..]), lo, hi)
  {
    ghost var t := Elementwise.Scaled(v[..], scaler);
    ghost var s := result[..];
    BetweenEmpty(t, s, lo);
    var i := lo;
    while i < hi
      invariant lo <= i <= hi
      invariant result[..] == Between(t, s, lo, i)
    {
      BetweenStep(t, s, lo, i);
      result[i] := v[i] * scaler;
      i := i + 1;
    }
  }

  /** One rank's call: elements [start, end) of its unclamped block get `v[i] * scaler`. */
  method ScaleVectorRank(v: array<int>, scaler: int, result: array<int>, parId: nat, parCount: nat)
    requires v != result && v.Length == result.Length
    requires parId < parCount
    modifies result
    ensures var range := Partition.UnclampedRange(v.Length, parCount, parId);
      result[..] == Between(Elementwise.Scaled(v[..], scaler), old(result[..]), range.start, range.end)
  {
    var rpp := v.Length / parCount;
    var start := rpp * parId;
    var end := start + rpp;
    Partition.BlockInBounds(v.Length, parCount, parId);
    ScaleElements(v, scaler, result, start, end);
  }

  /** After ranks 0 .. rank-1, one more rank's call extends the scaled prefix to the start of rank + 1's block. */
  lemma PrefixStep(t: seq<int>, s: seq<int>, parCount: nat, rank: nat)
    requires |t| == |s| && 0 < parCount
    ensures var block := Partition.UnclampedRange(|s|, parCount, rank);
      Between(t, Between(t, s, 0, block.start), block.start, block.end) ==
      Between(t, s, 0, Partition.Block(|s|, parCount, rank + 1).start)
  {
    var block := Partition.Block(|s|, parCount, rank);
    Partition.BlockNext(|s|, parCount, rank);
    assert 0 <= block.start <= block.end by {
      Layout.MulMono(0, rank, |s| / parCount);
    }
    BetweenJoin(t, s, 0, block.start, block.end);
  }

  /** Before any rank nothing is written; after all of them, the prefix below `|s| - |s| % parCount`. */
  lemma PrefixEnds(t: seq<int>, s: seq<int>, parCount: nat)
    requires |t| == |s| && 0 < parCount
    ensures Between(t, s, 0, Partition.Block(|s|, parCount, 0).start) == s
    ensures Between(t, s, 0, Partition.Block(|s|, parCount, parCount).start) == Between(t, s, 0, |s| - |s| % parCount)
    ensures parCount > |s| ==> Between(t, s, 0, |s| - |s| % parCount) == s
  {
    Partition.BlocksSpan(|s|, parCount);
    BetweenEmpty(t, s, 0);
    if parCount > |s| {
      assert |s| % parCount == |s|;
    }
  }

  /**
   * Every rank's call: the first `size - size % par_count` elements are
   * scaled and the rest are never written; a group larger than the vector
   * writes nothing.
   */
  method ScaleVectorGroup(v: array<int>, scaler: int, result: array<int>, parCount: nat)
    requires v != result && v.Length == result.Length
    requires 0 < parCount
    modifies result
    ensures result[..] == Between(Elementwise.Scaled(v[..], scaler), old(result[..]), 0, v.Length - v.Length % parCount)
    ensures parCount > v.Length ==> result[..] == old(result[..])
  {
    ghost var t := Elementwise.Scaled(v[..], scaler);
    ghost var s := result[..];
    PrefixEnds(t, s, parCount);
    for rank := 0 to parCount
      invariant result[..] == Between(t, s, 0, Partition.Block(v.Length, parCount, rank).start)
    {
      PrefixStep(t, s, parCount, rank);
      ScaleVectorRank(v, scaler, result, rank, parCount);
    }
  }

  /** One rank's call with the corrected split of the elements: its leftover element, then its base range. */
  method ScaleVectorRankFixed(v: array<int>, scaler: int, result: array<int>, rank: nat, parCount: nat)
    requires v != result && v.Length == result.Length
    requires 0 < v.Length && 0 < parCount
    modifies result
    ensures result[..] == RankWrite(WithLeftover, Elementwise.Scaled(v[..], scaler), old(result[..]), v.Length, parCount, rank, 1)
  {
    var range := Partition.RankRange(v.Length, parCount, rank);
    var extra := Partition.FixedLeftoverRow(v.Length, parCount, rank);
    if rank < Partition.Participants(parCount, v.Length) {
      Partition.BaseRangeInBounds(v.Length, parCount, rank);
    }
    LeftoverShare(Elementwise.Scaled(v[..], scaler), result[..], v.Length, parCount, rank, 1);
    if extra.Some? {
      ScaleElements(v, scaler, result, extra.value, extra.value + 1);
    }
    ScaleElements(v, scaler, result, range.start, range.end);
  }

  /** Every rank's call of the corrected scalar_vector_mult: the result is the whole scaled vector. */
  method ScaleVectorGroupFixed(v: array<int>, scaler: int, result: array<int>, parCount: nat)
    requires v != result && v.Length == result.Length
    requires 0 < v.Length && 0 < parCount
    modifies result
    ensures result[..] == Elementwise.Scaled(v[..], scaler)
  {
    ghost var t := Elementwise.Scaled(v[..], scaler);
    ghost var s := result[..];
    var rank := 0;
    while rank < parCount
      invariant rank <= parCount
      invariant result[..] == GroupWrite(WithLeftover, t, s, v.Length, parCount, 1, rank)
    {
      ScaleVectorRankFixed(v, scaler, result, rank, parCount);
      rank := rank + 1;
    }
    GroupWriteComplete(t, s, v.Length, parCount, 1);
  }
}
