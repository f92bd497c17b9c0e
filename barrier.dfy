/**
 * The shared synch object (`synch_object`: `par_count`, `last_matrix_id`,
 * `ready[]`) and the steps of `simpi::synch` over its `ready` array.
 *
 * The class holds the real shared state; the ghost `phase` records where
 * each rank is inside synch, so that every method can be tied to the
 * corresponding step of BarrierSpec.  The busy-wait `while (1)` of synch is
 * not a method here: a rank's call is its Arrive, any number of Polls, and
 * one Release, interleaved by the scheduler with the other ranks' steps.
 */
module SharedBarrier {
  import BarrierSpec

  class SynchObject {
    const parCount: nat
    const ready: array<int>
    var lastMatrixId: string
    ghost var phase: seq<BarrierSpec.Phase>

    ghost predicate Valid()
      reads this
    {
      ready.Length == parCount + 1 && |phase| == parCount
    }

    /** The barrier part of the shared state, as BarrierSpec sees it. */
    ghost function State(): BarrierSpec.Barrier
      reads this, ready
    {
      BarrierSpec.Barrier(ready[..], phase)
    }

    /** The segment as the external launcher creates it: every counter zero. */
    constructor (parCount: nat)
      ensures Valid() && fresh(ready)
      ensures this.parCount == parCount && lastMatrixId == ""
      ensures State() == BarrierSpec.Initial(parCount)
    {
      this.parCount := parCount;
      ready := new int[parCount + 1](_ => 0);
      lastMatrixId := "";
      phase := seq(parCount, _ => BarrierSpec.Outside);
      new;
      assert ready[..] == seq(parCount + 1, _ => 0);
    }

    /** The scan of the spin loop: breakout is set exactly when every rank's slot has reached synchid. */
    method AllArrived(synchid: int) returns (breakout: bool)
      requires Valid()
      ensures breakout == BarrierSpec.AllAtLeast(ready[..], parCount, synchid)
    {
      breakout := true;
      var i := 0;
      while i < parCount
        invariant 0 <= i <= parCount
        invariant forall k :: 0 <= k < i ==> ready[k] >= synchid
      {
        if ready[i] < synchid {
          breakout := false;
          break;
        }
        i := i + 1;
      }
    }

    /** Entry into synch: publish the next generation in the caller's slot. */
    method Arrive(id: nat) returns (synchid: int)
      requires Valid() && id < parCount && phase[id] == BarrierSpec.Outside
      modifies ready, this`phase
      ensures Valid()
      ensures synchid == old(ready[parCount]) + 1
      ensures State() == BarrierSpec.Arrive(old(State()), id)
    {
      synchid := ready[parCount] + 1;
      ready[id] := synchid;
      phase := phase[id := BarrierSpec.Spinning(synchid)];
    }

    /** One iteration of the spin loop. */
    method Poll(id: nat, synchid: int) returns (breakout: bool)
      requires Valid() && id < parCount && phase[id] == BarrierSpec.Spinning(synchid)
      modifies this`phase
      ensures Valid()
      ensures breakout == BarrierSpec.AllAtLeast(ready[..], parCount, synchid)
      ensures State() == BarrierSpec.Poll(old(State()), id)
    {
      breakout := AllArrived(synchid);
      if breakout {
        phase := phase[id := BarrierSpec.Releasing(synchid)];
      }
    }

    /** Leaving synch: write the generation into the consensus slot. */
    method Release(id: nat, synchid: int)
      requires Valid() && id < parCount && phase[id] == BarrierSpec.Releasing(synchid)
      modifies ready, this`phase
      ensures Valid()
      ensures State() == BarrierSpec.Release(old(State()), id)
    {
      ready[parCount] := synchid;
      phase := phase[id := BarrierSpec.Outside];
    }

    /**
     * One complete round of the group, scheduled as: every rank arrives, then
     * every rank polls once and releases.  Each poll succeeds, and the round
     * lifts every slot and the consensus by exactly one.
     */
    method GroupRound()
      requires Valid() && 0 < parCount
      requires forall i :: 0 <= i < parCount ==> phase[i] == BarrierSpec.Outside
      modifies ready, this`phase
      ensures Valid() && BarrierSpec.Inv(State())
      ensures forall i :: 0 <= i < parCount ==> phase[i] == BarrierSpec.Outside
      ensures ready[parCount] == old(ready[parCount]) + 1
      ensures forall i :: 0 <= i < parCount ==> ready[i] == ready[parCount]
    {
      var g := ready[parCount];
      var id := 0;
      while id < parCount
        invariant 0 <= id <= parCount && Valid()
        invariant ready[parCount] == g
        invariant forall i :: 0 <= i < id ==> ready[i] == g + 1 && phase[i] == BarrierSpec.Spinning(g + 1)
        invariant forall i :: id <= i < parCount ==> phase[i] == BarrierSpec.Outside
      {
        var s := Arrive(id);
        id := id + 1;
      }
      id := 0;
      while id < parCount
        invariant 0 <= id <= parCount && Valid()
        invariant ready[parCount] == (if id == 0 then g else g + 1)
        invariant forall i :: 0 <= i < parCount ==> ready[i] == g + 1
        invariant forall i :: 0 <= i < id ==> phase[i] == BarrierSpec.Outside
        invariant forall i :: id <= i < parCount ==> phase[i] == BarrierSpec.Spinning(g + 1)
      {
        var breakout := Poll(id, g + 1);
        assert breakout;
        Release(id, g + 1);
        id := id + 1;
      }
    }
  }
}
