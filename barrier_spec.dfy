/**
 * The spin barrier `simpi::synch` as a state machine over the shared
 * `ready` array of the synch object.
 *
 * `ready[0..parCount)` holds, for each rank, the generation it last arrived
 * at; `ready[parCount]` is the consensus generation.  A call to synch is
 * three kinds of atomic step taken by the calling rank:
 *   Arrive  - `synchid := ready[parCount] + 1; ready[id] := synchid`,
 *   Poll    - one pass of the scan; if every `ready[i] >= synchid` the rank
 *             leaves the spin loop,
 *   Release - `ready[parCount] := synchid`, and the call returns.
 * A run of the group is any interleaving of these steps.  Only safety is
 * modelled: nothing here says that a spinning rank eventually leaves.
 */
module BarrierSpec {
  import opened Wrappers

  /** Where a rank stands in its current call of synch. */
  datatype Phase =
    | Outside                   // not inside synch
    | Spinning(synchid: int)    // arrived, rescanning ready[]
    | Releasing(synchid: int)   // saw full consensus, about to write the consensus slot

  /** The shared `ready` array (`|phase| + 1` slots) and the position of every rank. */
  datatype Barrier = Barrier(ready: seq<int>, phase: seq<Phase>)

  predicate WellFormed(b: Barrier)
  {
    |b.ready| == |b.phase| + 1
  }

  /** `ready[par_count]`, the last generation every rank agreed on. */
  function Consensus(b: Barrier): int
    requires WellFormed(b)
  {
    b.ready[|b.phase|]
  }

  /** Every one of the first `n` slots has reached generation `s`: the exit test of the spin loop. */
  predicate AllAtLeast(ready: seq<int>, n: nat, s: int)
    requires n <= |ready|
  {
    forall i :: 0 <= i < n ==> ready[i] >= s
  }

  /** The synch object as the launcher leaves it: all counters zero, no rank inside synch. */
  function Initial(parCount: nat): (b: Barrier)
    ensures WellFormed(b) && |b.phase| == parCount && Consensus(b) == 0
  {
    Barrier(seq(parCount + 1, _ => 0), seq(parCount, _ => Outside))
  }

  /** Arrival: the rank takes the next generation and publishes it in its own slot. */
  function Arrive(b: Barrier, id: nat): Barrier
    requires WellFormed(b) && id < |b.phase| && b.phase[id] == Outside
  {
    var synchid := Consensus(b) + 1;
    Barrier(b.ready[id := synchid], b.phase[id := Spinning(synchid)])
  }

  /** One pass of the scan over `ready[0..par_count)`. */
  function Poll(b: Barrier, id: nat): Barrier
    requires WellFormed(b) && id < |b.phase| && b.phase[id].Spinning?
  {
    var synchid := b.phase[id].synchid;
    if AllAtLeast(b.ready, |b.phase|, synchid) then b.(phase := b.phase[id := Releasing(synchid)]) else b
  }

  /** Release: the rank writes its generation into the consensus slot and returns. */
  function Release(b: Barrier, id: nat): Barrier
    requires WellFormed(b) && id < |b.phase| && b.phase[id].Releasing?
  {
    Barrier(b.ready[|b.phase| := b.phase[id].synchid], b.phase[id := Outside])
  }

  datatype Step = ArriveStep(id: nat) | PollStep(id: nat) | ReleaseStep(id: nat)

  predicate Enabled(b: Barrier, step: Step)
  {
    WellFormed(b) && step.id < |b.phase| &&
    match step
    case ArriveStep(id) => b.phase[id] == Outside
    case PollStep(id) => b.phase[id].Spinning?
    case ReleaseStep(id) => b.phase[id].Releasing?
  }

  function Next(b: Barrier, step: Step): Barrier
    requires Enabled(b, step)
  {
    match step
    case ArriveStep(id) => Arrive(b, id)
    case PollStep(id) => Poll(b, id)
    case ReleaseStep(id) => Release(b, id)
  }

  /** The state after a schedule of steps, or None if the schedule asks a rank for a step it cannot take. */
  function Run(b: Barrier, steps: seq<Step>): Option<Barrier>
    decreases |steps|
  {
    if steps == [] then Some(b)
    else if Enabled(b, steps[0]) then Run(Next(b, steps[0]), steps[1..])
    else None
  }

  /**
   * The invariant of every reachable state, with g the consensus generation:
   * every rank's slot is g or g + 1; a rank outside synch sits at g; a rank
   * inside synch has its own generation in its slot; and a rank about to
   * release has seen every rank reach its generation.
   */
  ghost predicate Inv(b: Barrier)
  {
    WellFormed(b) &&
    var n := |b.phase|;
    var g := Consensus(b);
    (forall i :: 0 <= i < n ==> b.ready[i] == g || b.ready[i] == g + 1) &&
    (forall i :: 0 <= i < n && b.phase[i] == Outside ==> b.ready[i] == g) &&
    (forall i :: 0 <= i < n && b.phase[i] != Outside ==> b.ready[i] == b.phase[i].synchid) &&
    (forall i :: 0 <= i < n && b.phase[i].Releasing? ==> AllAtLeast(b.ready, n, b.phase[i].synchid))
  }

  lemma InitialInv(parCount: nat)
    ensures Inv(Initial(parCount))
  {
  }

  /** Each single step keeps the invariant. */
  lemma NextInv(b: Barrier, step: Step)
    requires Inv(b) && Enabled(b, step)
    ensures Inv(Next(b, step))
  {
    var n := |b.phase|;
    match step
    case ArriveStep(id) =>
      var b' := Arrive(b, id);
      forall i | 0 <= i < n && b'.phase[i].Releasing?
        ensures AllAtLeast(b'.ready, n, b'.phase[i].synchid)
      {
        assert b.phase[i].Releasing?;
      }
    case PollStep(id) =>
    case ReleaseStep(id) =>
      var s := b.phase[id].synchid;
      var b' := Release(b, id);
      if s == Consensus(b) + 1 {
        assert forall i :: 0 <= i < n ==> b.ready[i] == s;
      }
  }

  /** Every state a schedule reaches from an invariant state satisfies the invariant. */
  lemma {:induction false} RunInv(b: Barrier, steps: seq<Step>)
    requires Inv(b) && Run(b, steps).Some?
    ensures Inv(Run(b, steps).value)
    decreases |steps|
  {
    if steps != [] {
      NextInv(b, steps[0]);
      RunInv(Next(b, steps[0]), steps[1..]);
    }
  }

  /** Every state the group can reach from the launcher's zeroed synch object satisfies the invariant. */
  lemma ReachableInv(parCount: nat, steps: seq<Step>)
    requires Run(Initial(parCount), steps).Some?
    ensures Inv(Run(Initial(parCount), steps).value)
  {
    InitialInv(parCount);
    RunInv(Initial(parCount), steps);
  }

  /**
   * Arrival changes only the caller's slot, and raises it by exactly one:
   * two consecutive calls of synch by one rank never share a generation.
   */
  lemma ArriveNextGeneration(b: Barrier, id: nat)
    requires Inv(b) && id < |b.phase| && b.phase[id] == Outside
    ensures Arrive(b, id).ready[id] == b.ready[id] + 1 == Consensus(b) + 1
    ensures forall i :: 0 <= i < |b.ready| && i != id ==> Arrive(b, id).ready[i] == b.ready[i]
  {
  }

  /**
   * A rank leaves synch for generation s only when every rank has arrived at
   * generation s or later, and its write moves the consensus slot to s, which
   * is the old consensus or one more.
   */
  lemma ReleaseAfterAllArrived(b: Barrier, id: nat)
    requires Inv(b) && id < |b.phase| && b.phase[id].Releasing?
    ensures forall i :: 0 <= i < |b.phase| ==> b.ready[i] >= b.phase[id].synchid
    ensures Consensus(Release(b, id)) == b.phase[id].synchid
    ensures Consensus(Release(b, id)) == Consensus(b) || Consensus(Release(b, id)) == Consensus(b) + 1
  {
  }

  /**
   * Every rank that is about to release in the same state writes the same
   * generation: a releasing rank has seen every slot reach its own
   * generation, and each slot holds its rank's generation.
   */
  lemma ReleasersAgree(b: Barrier, i: nat, j: nat)
    requires Inv(b) && i < |b.phase| && j < |b.phase|
    requires b.phase[i].Releasing? && b.phase[j].Releasing?
    ensures b.phase[i].synchid == b.phase[j].synchid
  {
    assert b.ready[j] >= b.phase[i].synchid && b.ready[i] >= b.phase[j].synchid;
  }

  /**
   * A release raises the consensus by exactly one when it completes a new
   * round (its generation is the consensus plus one) and leaves it unchanged
   * otherwise; once one rank of a round has released, the release of any
   * other rank of that round leaves the consensus where the first put it.
   */
  lemma ReleaseRound(b: Barrier, i: nat, j: nat)
    requires Inv(b) && i < |b.phase| && j < |b.phase| && i != j
    requires b.phase[i].Releasing? && b.phase[j].Releasing?
    ensures Consensus(Release(b, i)) == if b.phase[i].synchid == Consensus(b) + 1 then Consensus(b) + 1 else Consensus(b)
    ensures Release(b, i).phase[j].Releasing?
    ensures Consensus(Release(Release(b, i), j)) == Consensus(Release(b, i))
  {
    ReleasersAgree(b, i, j);
  }

  /** The consensus generation never passes a rank: it is at most every rank's own generation. */
  lemma ConsensusBelowAll(b: Barrier, i: nat)
    requires Inv(b) && i < |b.phase|
    ensures Consensus(b) <= b.ready[i] <= Consensus(b) + 1
  {
  }

  /** No step lowers a slot, and the consensus slot rises by at most one per step. */
  lemma NextMonotone(b: Barrier, step: Step)
    requires Inv(b) && Enabled(b, step)
    ensures |Next(b, step).ready| == |b.ready|
    ensures forall i :: 0 <= i < |b.ready| ==> Next(b, step).ready[i] >= b.ready[i]
    ensures Consensus(Next(b, step)) <= Consensus(b) + 1
  {
  }

  /** Along any schedule no slot of ready[] decreases. */
  lemma {:induction false} RunMonotone(b: Barrier, steps: seq<Step>, i: nat)
    requires Inv(b) && Run(b, steps).Some? && i < |b.ready|
    ensures |Run(b, steps).value.ready| == |b.ready|
    ensures Run(b, steps).value.ready[i] >= b.ready[i]
    decreases |steps|
  {
    if steps != [] {
      NextMonotone(b, steps[0]);
      NextInv(b, steps[0]);
      RunMonotone(Next(b, steps[0]), steps[1..], i);
    }
  }
}
