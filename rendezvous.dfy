/**
 * The allocation rendezvous of `simpi::create_matrix`, run by the whole
 * group as an interleaving of atomic steps over the shared synch object.
 *
 * Rank 0 mints a name, registers it and writes it into `last_matrix_id`,
 * then calls synch; every other rank calls synch first, then reads
 * `last_matrix_id` and registers that name.  Names come from an abstract
 * oracle that never repeats a name.  `names[i]` lists the names rank i's
 * calls of create_matrix have returned (rank 0's are fixed when published).
 *
 * Two protocols are modelled: the one the source implements, and the same
 * with one more synch at the end of create_matrix on every rank.
 */
module Rendezvous {
  import opened Wrappers
  import BarrierSpec
  import Registry

  datatype Protocol = AsWritten | TrailingSynch

  /** Where a rank stands in create_matrix. */
  datatype Pc =
    | Idle          // not inside create_matrix
    | Published     // rank 0: name registered and published, synch not yet called
    | FirstSynch    // inside the synch of create_matrix
    | Opening       // rank > 0: back from synch, last_matrix_id not yet read
    | Opened        // the name is registered locally
    | SecondSynch   // inside the trailing synch (TrailingSynch only)

  datatype Group = Group(
    barrier: BarrierSpec.Barrier,
    lastMatrixId: string,
    info: seq<map<string, Registry.Metadata>>,
    pc: seq<Pc>,
    names: seq<seq<string>>)

  predicate WellFormed(g: Group)
  {
    BarrierSpec.WellFormed(g.barrier) && 0 < |g.pc| &&
    |g.barrier.phase| == |g.pc| && |g.info| == |g.pc| && |g.names| == |g.pc|
  }

  function Initial(n: nat): (g: Group)
    requires 0 < n
    ensures WellFormed(g) && |g.pc| == n
  {
    Group(BarrierSpec.Initial(n), "", seq(n, _ => map[]), seq(n, _ => Idle), seq(n, _ => []))
  }

  datatype Step =
    | Publish(name: string, x: nat, y: nat)   // rank 0, before its synch
    | Enter(id: nat)                          // the arrival step of synch
    | Poll(id: nat)                           // one scan of synch's spin loop
    | Leave(id: nat)                          // the release step of synch
    | Open(id: nat)                           // rank > 0, after its synch
    | Finish(id: nat)                         // create_matrix returns (AsWritten)

  predicate InSynch(p: Pc)
  {
    p == FirstSynch || p == SecondSynch
  }

  predicate Enabled(proto: Protocol, g: Group, step: Step)
  {
    WellFormed(g) &&
    var n := |g.pc|;
    match step
    case Publish(name, x, y) => g.pc[0] == Idle && name !in g.names[0]
    case Enter(id) =>
      id < n && g.barrier.phase[id] == BarrierSpec.Outside &&
      (g.pc[id] == (if id == 0 then Published else Idle) || (proto == TrailingSynch && g.pc[id] == Opened))
    case Poll(id) => id < n && InSynch(g.pc[id]) && g.barrier.phase[id].Spinning?
    case Leave(id) => id < n && InSynch(g.pc[id]) && g.barrier.phase[id].Releasing?
    case Open(id) => 0 < id < n && g.pc[id] == Opening
    case Finish(id) => proto == AsWritten && id < n && g.pc[id] == Opened
  }

  function Next(proto: Protocol, g: Group, step: Step): Group
    requires Enabled(proto, g, step)
  {
    match step
    case Publish(name, x, y) =>
      g.(info := g.info[0 := g.info[0][name := Registry.CreatedEntry(name, x, y)]],
         lastMatrixId := name,
         names := g.names[0 := g.names[0] + [name]],
         pc := g.pc[0 := Published])
    case Enter(id) =>
      g.(barrier := BarrierSpec.Arrive(g.barrier, id),
         pc := g.pc[id := if g.pc[id] == Opened then SecondSynch else FirstSynch])
    case Poll(id) =>
      g.(barrier := BarrierSpec.Poll(g.barrier, id))
    case Leave(id) =>
      g.(barrier := BarrierSpec.Release(g.barrier, id),
         pc := g.pc[id := if g.pc[id] == SecondSynch then Idle else if id == 0 then Opened else Opening])
    case Open(id) =>
      var name := g.lastMatrixId;
      g.(info := g.info[id := g.info[id][name := Registry.OpenedEntry(name)]],
         names := g.names[id := g.names[id] + [name]],
         pc := g.pc[id := Opened])
    case Finish(id) =>
      g.(pc := g.pc[id := Idle])
  }

  /** The barrier step a group step takes, if any. */
  function BarrierStep(step: Step): Option<BarrierSpec.Step>
  {
    match step
    case Enter(id) => Some(BarrierSpec.ArriveStep(id))
    case Poll(id) => Some(BarrierSpec.PollStep(id))
    case Leave(id) => Some(BarrierSpec.ReleaseStep(id))
    case _ => None
  }

  function Run(proto: Protocol, g: Group, steps: seq<Step>): Option<Group>
    decreases |steps|
  {
    if steps == [] then Some(g)
    else if Enabled(proto, g, steps[0]) then Run(proto, Next(proto, g, steps[0]), steps[1..])
    else None
  }


  /** Every rank's k-th call of create_matrix returned the name rank 0's k-th call minted. */
  ghost predicate Agreement(g: Group)
    requires WellFormed(g)
  {
    forall i, k :: 0 <= i < |g.pc| && 0 <= k < |g.names[i]| ==>
      k < |g.names[0]| && g.names[i][k] == g.names[0][k]
  }

  /**
   * The synch-related half of the invariant shared by both protocols: the
   * barrier invariant; a rank is inside synch exactly when its create_matrix
   * is at a synch call; only rank 0 publishes and only other ranks open; and
   * a rank about to read last_matrix_id has seen every rank reach its
   * generation.
   */
  ghost predicate Coupled(g: Group)
  {
    WellFormed(g) && BarrierSpec.Inv(g.barrier) &&
    var n := |g.pc|;
    (forall i :: 0 <= i < n ==> (InSynch(g.pc[i]) <==> g.barrier.phase[i] != BarrierSpec.Outside)) &&
    g.pc[0] != Opening &&
    (forall i :: 0 < i < n ==> g.pc[i] != Published) &&
    (forall i :: 0 <= i < n && g.pc[i] == Opening ==> BarrierSpec.AllAtLeast(g.barrier.ready, n, g.barrier.ready[i]))
  }

  /**
   * The registry half: rank 0 has published its latest name; every returned
   * name is registered on the rank that returned it; only rank 0 records
   * sizes.
   */
  ghost predicate Registered(g: Group)
  {
    WellFormed(g) &&
    var n := |g.pc|;
    (g.pc[0] != Idle ==> |g.names[0]| > 0) &&
    (|g.names[0]| > 0 ==> g.lastMatrixId == g.names[0][|g.names[0]| - 1]) &&
    (forall i, k :: 0 <= i < n && 0 <= k < |g.names[i]| ==> g.names[i][k] in g.info[i]) &&
    (forall name :: name in g.info[0] ==> g.info[0][name].size.Some?) &&
    (forall i, name :: 0 < i < n && name in g.info[i] ==> g.info[i][name].size == None)
  }

  ghost predicate BasicInv(g: Group)
  {
    Coupled(g) && Registered(g)
  }

  lemma InitialBasicInv(n: nat)
    requires 0 < n
    ensures BasicInv(Initial(n))
  {
  }

  /** The barrier part of a group step is the corresponding BarrierSpec step. */
  lemma BarrierStepAgrees(proto: Protocol, g: Group, step: Step)
    requires WellFormed(g) && BarrierSpec.Inv(g.barrier) && Enabled(proto, g, step)
    ensures BarrierStep(step).Some? ==>
      BarrierSpec.Enabled(g.barrier, BarrierStep(step).value) &&
      Next(proto, g, step).barrier == BarrierSpec.Next(g.barrier, BarrierStep(step).value)
    ensures BarrierStep(step).None? ==> Next(proto, g, step).barrier == g.barrier
    ensures BarrierSpec.Inv(Next(proto, g, step).barrier)
  {
    if BarrierStep(step).Some? {
      BarrierSpec.NextInv(g.barrier, BarrierStep(step).value);
    }
  }

  /** Appending a name just registered keeps every listed name registered. */
  lemma AppendRegistered(names: seq<string>, info: map<string, Registry.Metadata>, name: string, e: Registry.Metadata)
    requires forall k :: 0 <= k < |names| ==> names[k] in info
    ensures forall k :: 0 <= k < |names + [name]| ==> (names + [name])[k] in info[name := e]
  {
  }

  lemma NextCoupled(proto: Protocol, g: Group, step: Step)
    requires Coupled(g) && Enabled(proto, g, step)
    ensures Coupled(Next(proto, g, step))
  {
    BarrierStepAgrees(proto, g, step);
    match step
    case Publish(name, x, y) =>
    case Enter(id) => EnterCoupled(proto, g, id);
    case Poll(id) =>
    case Leave(id) => LeaveCoupled(proto, g, id);
    case Open(id) =>
    case Finish(id) =>
  }

  lemma EnterCoupled(proto: Protocol, g: Group, id: nat)
    requires Coupled(g) && Enabled(proto, g, Enter(id))
    ensures Coupled(Next(proto, g, Enter(id)))
  {
    BarrierStepAgrees(proto, g, Enter(id));
    var g' := Next(proto, g, Enter(id));
    var n := |g.pc|;
    forall i | 0 <= i < n && g'.pc[i] == Opening
      ensures BarrierSpec.AllAtLeast(g'.barrier.ready, n, g'.barrier.ready[i])
    {
      assert i != id && g.pc[i] == Opening;
      BarrierSpec.ArriveNextGeneration(g.barrier, id);
    }
  }

  lemma LeaveCoupled(proto: Protocol, g: Group, id: nat)
    requires Coupled(g) && Enabled(proto, g, Leave(id))
    ensures Coupled(Next(proto, g, Leave(id)))
  {
    BarrierStepAgrees(proto, g, Leave(id));
    BarrierSpec.ReleaseAfterAllArrived(g.barrier, id);
  }

  lemma NextRegistered(proto: Protocol, g: Group, step: Step)
    requires BasicInv(g) && Enabled(proto, g, step)
    ensures Registered(Next(proto, g, step))
  {
    match step
    case Publish(name, x, y) =>
      AppendRegistered(g.names[0], g.info[0], name, Registry.CreatedEntry(name, x, y));
    case Open(id) =>
      AppendRegistered(g.names[id], g.info[id], g.lastMatrixId, Registry.OpenedEntry(g.lastMatrixId));
    case _ =>
  }

  lemma NextBasicInv(proto: Protocol, g: Group, step: Step)
    requires BasicInv(g) && Enabled(proto, g, step)
    ensures BasicInv(Next(proto, g, step))
  {
    NextCoupled(proto, g, step);
    NextRegistered(proto, g, step);
  }

  lemma {:induction false} RunBasicInv(proto: Protocol, g: Group, steps: seq<Step>)
    requires BasicInv(g) && Run(proto, g, steps).Some?
    ensures BasicInv(Run(proto, g, steps).value)
    ensures |Run(proto, g, steps).value.pc| == |g.pc|
    decreases |steps|
  {
    if steps != [] {
      NextBasicInv(proto, g, steps[0]);
      RunBasicInv(proto, Next(proto, g, steps[0]), steps[1..]);
    }
  }

  /**
   * Under either protocol, in every reachable state each name a rank's
   * create_matrix returned is in that rank's matrix_info, rank 0's entries
   * carry a size and the others' do not, rank 0's latest name is the one in
   * last_matrix_id, and a rank about to read last_matrix_id has passed a
   * synch that every rank has entered.
   */
  lemma ReachableRegistered(proto: Protocol, n: nat, steps: seq<Step>)
    requires 0 < n && Run(proto, Initial(n), steps).Some?
    ensures var g := Run(proto, Initial(n), steps).value;
      WellFormed(g) && |g.pc| == n &&
      (forall i, k :: 0 <= i < n && 0 <= k < |g.names[i]| ==> g.names[i][k] in g.info[i]) &&
      (forall name :: name in g.info[0] ==> g.info[0][name].size.Some?) &&
      (forall i, name :: 0 < i < n && name in g.info[i] ==> g.info[i][name].size == None) &&
      (|g.names[0]| > 0 ==> g.lastMatrixId == g.names[0][|g.names[0]| - 1]) &&
      (forall i :: 0 <= i < n && g.pc[i] == Opening ==> BarrierSpec.AllAtLeast(g.barrier.ready, n, g.barrier.ready[i]))
  {
    InitialBasicInv(n);
    RunBasicInv(proto, Initial(n), steps);
  }

  /** Publishing registers the new name on rank 0 with the byte size of the requested matrix. */
  lemma PublishRecordsSize(proto: Protocol, g: Group, name: string, x: nat, y: nat)
    requires Enabled(proto, g, Publish(name, x, y))
    ensures Next(proto, g, Publish(name, x, y)).info[0][name] == Registry.Metadata(name, Some(x * y * 8))
    ensures Next(proto, g, Publish(name, x, y)).lastMatrixId == name
    ensures forall i :: 0 < i < |g.pc| ==> Next(proto, g, Publish(name, x, y)).info[i] == g.info[i]
  {
  }

  // ---------------------------------------------------------------------
  // The protocol with a trailing synch: every rank agrees on every name.

  /**
   * How far a rank's slot in ready[] is from twice the number of names its
   * create_matrix calls have returned, at each point of create_matrix.
   */
  function Offset(first: bool, p: Pc): int
  {
    match p
    case Idle => 0
    case Published => -2
    case FirstSynch => if first then -1 else 1
    case Opening => 1
    case Opened => -1
    case SecondSynch => 0
  }

  /** Every create_matrix takes each rank through exactly two synchs. */
  ghost predicate Counted(g: Group)
    requires WellFormed(g)
  {
    forall i :: 0 <= i < |g.pc| ==> g.barrier.ready[i] == 2 * |g.names[i]| + Offset(i == 0, g.pc[i])
  }

  ghost predicate FixedInv(g: Group)
  {
    BasicInv(g) && Counted(g) && Agreement(g)
  }

  lemma InitialFixedInv(n: nat)
    requires 0 < n
    ensures FixedInv(Initial(n))
  {
  }

  /** A rank reading last_matrix_id finds rank 0's name for the same call. */
  lemma OpenReadsMatchingName(g: Group, id: nat)
    requires FixedInv(g) && Enabled(TrailingSynch, g, Open(id))
    ensures |g.names[0]| == |g.names[id]| + 1
    ensures g.lastMatrixId == g.names[0][|g.names[id]|]
  {
    var k := |g.names[id]|;
    var r := g.barrier.ready;
    var c := BarrierSpec.Consensus(g.barrier);
    assert r[id] == 2 * k + 1;
    assert r[0] >= 2 * k + 1;
    assert c <= r[0] <= c + 1 && c <= r[id] <= c + 1;
    assert g.pc[0] != Idle && g.pc[0] != Published;
  }

  /** The precondition shared by the step lemmas for Counted. */
  ghost predicate CountedBefore(g: Group, step: Step)
  {
    WellFormed(g) && BarrierSpec.Inv(g.barrier) && Counted(g) && Enabled(TrailingSynch, g, step)
  }

  lemma EnterCounted(g: Group, id: nat)
    requires CountedBefore(g, Enter(id))
    ensures Counted(Next(TrailingSynch, g, Enter(id)))
  {
    var g' := Next(TrailingSynch, g, Enter(id));
    BarrierSpec.ArriveNextGeneration(g.barrier, id);
    forall i | 0 <= i < |g.pc|
      ensures g'.barrier.ready[i] == 2 * |g'.names[i]| + Offset(i == 0, g'.pc[i])
    {
      if i != id {
        assert g'.pc[i] == g.pc[i] && g'.barrier.ready[i] == g.barrier.ready[i];
      }
    }
  }

  lemma LeaveCounted(g: Group, id: nat)
    requires CountedBefore(g, Leave(id))
    ensures Counted(Next(TrailingSynch, g, Leave(id)))
  {
    var g' := Next(TrailingSynch, g, Leave(id));
    forall i | 0 <= i < |g.pc|
      ensures g'.barrier.ready[i] == 2 * |g'.names[i]| + Offset(i == 0, g'.pc[i])
    {
      assert g'.barrier.ready[i] == g.barrier.ready[i];
      if i != id {
        assert g'.pc[i] == g.pc[i];
      }
    }
  }

  /** Publish and Open append one name while moving their rank two slots back in Offset. */
  lemma NameCounted(g: Group, step: Step)
    requires CountedBefore(g, step) && (step.Publish? || step.Open?)
    ensures Counted(Next(TrailingSynch, g, step))
  {
    var g' := Next(TrailingSynch, g, step);
    var id := if step.Publish? then 0 else step.id;
    forall i | 0 <= i < |g.pc|
      ensures g'.barrier.ready[i] == 2 * |g'.names[i]| + Offset(i == 0, g'.pc[i])
    {
      if i != id {
        assert g'.pc[i] == g.pc[i] && g'.names[i] == g.names[i];
      }
    }
  }

  lemma NextCounted(g: Group, step: Step)
    requires WellFormed(g) && BarrierSpec.Inv(g.barrier) && Counted(g) && Enabled(TrailingSynch, g, step)
    ensures Counted(Next(TrailingSynch, g, step))
  {
    match step
    case Enter(id) => EnterCounted(g, id);
    case Leave(id) => LeaveCounted(g, id);
    case Publish(name, x, y) => NameCounted(g, step);
    case Open(id) => NameCounted(g, step);
    case Poll(id) =>
    case Finish(id) =>
  }

  lemma NextAgreement(g: Group, step: Step)
    requires FixedInv(g) && Enabled(TrailingSynch, g, step)
    ensures Agreement(Next(TrailingSynch, g, step))
  {
    var g' := Next(TrailingSynch, g, step);
    match step
    case Publish(name, x, y) =>
      forall i, k | 0 <= i < |g'.pc| && 0 <= k < |g'.names[i]|
        ensures k < |g'.names[0]| && g'.names[i][k] == g'.names[0][k]
      {
        if i != 0 {
          assert g'.names[i][k] == g.names[i][k] == g.names[0][k];
        }
      }
    case Open(id) =>
      OpenReadsMatchingName(g, id);
      forall i, k | 0 <= i < |g'.pc| && 0 <= k < |g'.names[i]|
        ensures k < |g'.names[0]| && g'.names[i][k] == g'.names[0][k]
      {
        if i == id && k < |g.names[id]| {
          assert g'.names[i][k] == g.names[i][k];
        }
      }
    case _ =>
  }

  lemma NextFixedInv(g: Group, step: Step)
    requires FixedInv(g) && Enabled(TrailingSynch, g, step)
    ensures FixedInv(Next(TrailingSynch, g, step))
  {
    NextBasicInv(TrailingSynch, g, step);
    NextCounted(g, step);
    NextAgreement(g, step);
  }

  lemma {:induction false} RunFixedInv(g: Group, steps: seq<Step>)
    requires FixedInv(g) && Run(TrailingSynch, g, steps).Some?
    ensures FixedInv(Run(TrailingSynch, g, steps).value)
    ensures |Run(TrailingSynch, g, steps).value.pc| == |g.pc|
    decreases |steps|
  {
    if steps != [] {
      NextFixedInv(g, steps[0]);
      RunFixedInv(Next(TrailingSynch, g, steps[0]), steps[1..]);
    }
  }

  /**
   * With a synch at the end of create_matrix, under every schedule, the
   * names each rank's calls have returned are a prefix of rank 0's: every
   * rank's k-th matrix is the segment rank 0 created for its k-th call.
   */
  lemma TrailingSynchAgreement(n: nat, steps: seq<Step>)
    requires 0 < n && Run(TrailingSynch, Initial(n), steps).Some?
    ensures var g := Run(TrailingSynch, Initial(n), steps).value;
      |g.names| == n && forall i :: 0 <= i < n ==> g.names[i] <= g.names[0]
  {
    InitialFixedInv(n);
    RunFixedInv(Initial(n), steps);
    var g := Run(TrailingSynch, Initial(n), steps).value;
    forall i | 0 <= i < n
      ensures g.names[i] <= g.names[0]
    {
      assert g.names[i] == g.names[0][..|g.names[i]|];
    }
  }

  // ---------------------------------------------------------------------
  // The race of the protocol as written.

  lemma RunCons(proto: Protocol, g: Group, step: Step, rest: seq<Step>)
    requires Enabled(proto, g, step)
    ensures Run(proto, g, [step] + rest) == Run(proto, Next(proto, g, step), rest)
  {
    assert ([step] + rest)[1..] == rest;
  }

  function Snapshot(ready: seq<int>, phase: seq<BarrierSpec.Phase>, last: string,
                    info0: map<string, Registry.Metadata>, info1: map<string, Registry.Metadata>,
                    pc: seq<Pc>, names0: seq<string>, names1: seq<string>): Group
  {
    Group(BarrierSpec.Barrier(ready, phase), last, [info0, info1], pc, [names0, names1])
  }

  const Out := BarrierSpec.Outside
  const EntryA := Registry.CreatedEntry("a", 2, 2)
  const EntryB := Registry.CreatedEntry("b", 2, 2)

  /** The schedule of the race: two ranks, two allocations of 2-by-2 matrices named "a" and "b". */
  const RaceSchedule: seq<Step> := [Publish("a", 2, 2), Enter(0), Enter(1), Poll(0), Poll(1),
                                   Leave(0), Finish(0), Publish("b", 2, 2), Leave(1), Open(1)]

  /** The group after the first k steps of the race schedule. */
  function RaceState(k: nat): Group
    requires k <= 10
  {
    var S, R := BarrierSpec.Spinning(1), BarrierSpec.Releasing(1);
    if k == 0 then Snapshot([0, 0, 0], [Out, Out], "", map[], map[], [Idle, Idle], [], [])
    else if k == 1 then Snapshot([0, 0, 0], [Out, Out], "a", map["a" := EntryA], map[], [Published, Idle], ["a"], [])
    else if k == 2 then Snapshot([1, 0, 0], [S, Out], "a", map["a" := EntryA], map[], [FirstSynch, Idle], ["a"], [])
    else if k == 3 then Snapshot([1, 1, 0], [S, S], "a", map["a" := EntryA], map[], [FirstSynch, FirstSynch], ["a"], [])
    else if k == 4 then Snapshot([1, 1, 0], [R, S], "a", map["a" := EntryA], map[], [FirstSynch, FirstSynch], ["a"], [])
    else if k == 5 then Snapshot([1, 1, 0], [R, R], "a", map["a" := EntryA], map[], [FirstSynch, FirstSynch], ["a"], [])
    else if k == 6 then Snapshot([1, 1, 1], [Out, R], "a", map["a" := EntryA], map[], [Opened, FirstSynch], ["a"], [])
    else if k == 7 then Snapshot([1, 1, 1], [Out, R], "a", map["a" := EntryA], map[], [Idle, FirstSynch], ["a"], [])
    else if k == 8 then Snapshot([1, 1, 1], [Out, R], "b", map["a" := EntryA, "b" := EntryB], map[], [Published, FirstSynch], ["a", "b"], [])
    else if k == 9 then Snapshot([1, 1, 1], [Out, Out], "b", map["a" := EntryA, "b" := EntryB], map[], [Published, Opening], ["a", "b"], [])
    else Snapshot([1, 1, 1], [Out, Out], "b", map["a" := EntryA, "b" := EntryB], map["b" := Registry.OpenedEntry("b")], [Published, Opened], ["a", "b"], ["b"])
  }

  /** The k-th step of the race schedule is enabled and leads to the next listed state. */
  ghost predicate RaceStepTaken(k: nat)
    requires k < 10
  {
    Enabled(AsWritten, RaceState(k), RaceSchedule[k]) &&
    Next(AsWritten, RaceState(k), RaceSchedule[k]) == RaceState(k + 1)
  }

  lemma RaceStep0() ensures RaceStepTaken(0)
  {
    var t := Next(AsWritten, RaceState(0), RaceSchedule[0]);
    assert t.names[0] == ["a"];
  }

  lemma RaceStep1() ensures RaceStepTaken(1)
  {
    var t := Next(AsWritten, RaceState(1), RaceSchedule[1]);
    assert t.barrier.ready == [1, 0, 0];
  }

  lemma RaceStep2() ensures RaceStepTaken(2)
  {
    var t := Next(AsWritten, RaceState(2), RaceSchedule[2]);
    assert t.barrier.ready == [1, 1, 0];
  }

  lemma RaceStep3() ensures RaceStepTaken(3)
  {
    assert BarrierSpec.AllAtLeast(RaceState(3).barrier.ready, 2, 1);
  }

  lemma RaceStep4() ensures RaceStepTaken(4)
  {
    assert BarrierSpec.AllAtLeast(RaceState(4).barrier.ready, 2, 1);
  }

  lemma RaceStep5() ensures RaceStepTaken(5)
  {
  }

  lemma RaceStep6() ensures RaceStepTaken(6)
  {
  }

  lemma RaceStep7() ensures RaceStepTaken(7)
  {
    var t := Next(AsWritten, RaceState(7), RaceSchedule[7]);
    assert t.names[0] == ["a", "b"];
  }

  lemma RaceStep8() ensures RaceStepTaken(8)
  {
  }

  lemma RaceStep9() ensures RaceStepTaken(9)
  {
    var t := Next(AsWritten, RaceState(9), RaceSchedule[9]);
    assert t.names[1] == ["b"];
  }

  lemma RaceSteps(k: nat)
    requires k < 10
    ensures RaceStepTaken(k)
  {
    if k == 0 { RaceStep0(); }
    else if k == 1 { RaceStep1(); }
    else if k == 2 { RaceStep2(); }
    else if k == 3 { RaceStep3(); }
    else if k == 4 { RaceStep4(); }
    else if k == 5 { RaceStep5(); }
    else if k == 6 { RaceStep6(); }
    else if k == 7 { RaceStep7(); }
    else if k == 8 { RaceStep8(); }
    else { RaceStep9(); }
  }

  lemma {:induction false} RaceSuffix(k: nat)
    requires k <= 10
    ensures Run(AsWritten, RaceState(k), RaceSchedule[k..]) == Some(RaceState(10))
    decreases 10 - k
  {
    if k < 10 {
      RaceSteps(k);
      RaceSuffix(k + 1);
      assert RaceSchedule[k..][1..] == RaceSchedule[k + 1..];
    }
  }

  lemma RaceStartsInitial()
    ensures Initial(2) == RaceState(0)
  {
    var g := Initial(2);
    assert g.barrier.ready == [0, 0, 0];
    assert g.barrier.phase == [Out, Out];
    assert g.info == [map[], map[]];
    assert g.pc == [Idle, Idle];
    assert g.names == [[], []];
  }

  lemma RaceEnd()
    ensures RaceState(10).names == [["a", "b"], ["b"]] && !Agreement(RaceState(10))
  {
    var g := RaceState(10);
    assert g.names[1][0] != g.names[0][0];
  }

  /**
   * Under the protocol as written, rank 0 can return from the synch of one
   * create_matrix, call create_matrix again and publish the next name before
   * rank 1 has read last_matrix_id: both ranks pass the first synch, rank 0
   * publishes "b", and rank 1's first matrix is "b" where rank 0's is "a".
   */
  lemma AsWrittenRace()
    ensures exists steps :: Run(AsWritten, Initial(2), steps) == Some(RaceState(10))
    ensures RaceState(10).names == [["a", "b"], ["b"]] && !Agreement(RaceState(10))
  {
    RaceStartsInitial();
    RaceSuffix(0);
    assert RaceSchedule[0..] == RaceSchedule;
    assert Run(AsWritten, Initial(2), RaceSchedule) == Some(RaceState(10));
    RaceEnd();
  }
}
