/** Several processes counting accesses and flushing to one journal file without a file lock. */
module AccessRuns {
  import opened Prelude
  import opened AccessJournal

  type Pid = nat
  type TaskId = nat

  // A flush in progress: the counts copied out of the process, then the merge about to be written.
  datatype Task = Copied(p: Pid, counts: Journal) | Merged(p: Pid, result: Journal)

  // `truth` is the number of accesses ever recorded for an id, on top of what the file held at the start.
  datatype State = State(disk: Journal, memory: map<Pid, Journal>, tasks: map<TaskId, Task>, truth: map<Id, nat>)

  datatype Step =
    | Start(p: Pid)
    | Record(p: Pid, id: Id, now: int)
    | Copy(p: Pid, t: TaskId)
    | Load(t: TaskId, merged: Journal)
    | Write(t: TaskId)

  function TruthAt(s: State, id: Id): nat {
    if id in s.truth then s.truth[id] else 0
  }

  ghost predicate Next(s: State, step: Step, s': State) {
    match step
    case Start(p) =>
      p !in s.memory && s' == s.(memory := s.memory[p := s.disk])
    case Record(p, id, now) =>
      && p in s.memory
      && s' == s.(memory := s.memory[p := s.memory[p][id := Stat(At(s.memory[p], id).count + 1, Some(now))]],
                  truth := s.truth[id := TruthAt(s, id) + 1])
    case Copy(p, t) =>
      p in s.memory && t !in s.tasks && s' == s.(tasks := s.tasks[t := Copied(p, s.memory[p])])
    case Load(t, merged) =>
      && t in s.tasks && s.tasks[t].Copied? && IsJoin(s.disk, s.tasks[t].counts, merged)
      && s' == s.(tasks := s.tasks[t := Merged(s.tasks[t].p, merged)])
    case Write(t) =>
      && t in s.tasks && s.tasks[t].Merged?
      && s' == s.(disk := s.tasks[t].result, tasks := s.tasks - {t})
  }

  ghost predicate Begin(s: State) {
    && s.memory == map[] && s.tasks == map[]
    && forall id :: At(s.disk, id).count == TruthAt(s, id)
  }

  ghost predicate Run(states: seq<State>, steps: seq<Step>) {
    && |states| == |steps| + 1 && Begin(states[0])
    && forall i :: 0 <= i < |steps| ==> StepAt(states, steps, i)
  }

  ghost predicate StepAt(states: seq<State>, steps: seq<Step>, i: nat)
    requires |states| == |steps| + 1 && i < |steps|
  {
    Next(states[i], steps[i], states[i + 1])
  }

  // No entry claims more accesses than were recorded.
  ghost predicate Honest(s: State, j: Journal) {
    forall id <- j :: j[id].count <= TruthAt(s, id)
  }

  ghost predicate Inv(s: State) {
    && Honest(s, s.disk)
    && (forall p <- s.memory :: Honest(s, s.memory[p]))
    && (forall t <- s.tasks :: Honest(s, if s.tasks[t].Copied? then s.tasks[t].counts else s.tasks[t].result))
  }

  lemma TruthOnlyGrows(s: State, step: Step, s': State, j: Journal)
    requires Next(s, step, s') && Honest(s, j)
    ensures Honest(s', j)
  {
  }

  lemma NextKeepsInv(s: State, step: Step, s': State)
    requires Inv(s) && Next(s, step, s')
    ensures Inv(s')
  {
    TruthOnlyGrows(s, step, s', s.disk);
    forall p | p in s'.memory
      ensures Honest(s', s'.memory[p])
    {
      if p in s.memory {
        TruthOnlyGrows(s, step, s', s.memory[p]);
      }
    }
    forall t | t in s'.tasks
      ensures Honest(s', if s'.tasks[t].Copied? then s'.tasks[t].counts else s'.tasks[t].result)
    {
      if t in s.tasks {
        TruthOnlyGrows(s, step, s', if s.tasks[t].Copied? then s.tasks[t].counts else s.tasks[t].result);
      }
    }
    if step.Write? {
      TruthOnlyGrows(s, step, s', s.tasks[step.t].result);
    }
  }

  lemma {:induction false} RunKeepsInv(states: seq<State>, steps: seq<Step>, i: nat)
    requires Run(states, steps) && i < |states|
    ensures Inv(states[i])
  {
    if i > 0 {
      RunKeepsInv(states, steps, i - 1);
      assert StepAt(states, steps, i - 1);
      NextKeepsInv(states[i - 1], steps[i - 1], states[i]);
    }
  }

  /** However loads and writes of the processes interleave, no count on disk, in memory or in a pending
      merge ever exceeds the true number of accesses. */
  lemma NeverOvercounts(states: seq<State>, steps: seq<Step>, i: nat, id: Id)
    requires Run(states, steps) && i < |states|
    ensures At(states[i].disk, id).count <= TruthAt(states[i], id)
    ensures forall p <- states[i].memory :: At(states[i].memory[p], id).count <= TruthAt(states[i], id)
  {
    RunKeepsInv(states, steps, i);
  }

  lemma {:induction false} MemoryOnlyGrows(states: seq<State>, steps: seq<Step>, i: nat, j: nat, p: Pid, id: Id)
    requires Run(states, steps) && i <= j < |states| && p in states[i].memory
    ensures p in states[j].memory
    ensures At(states[i].memory[p], id).count <= At(states[j].memory[p], id).count
    decreases j
  {
    if i < j {
      MemoryOnlyGrows(states, steps, i, j - 1, p, id);
      assert StepAt(states, steps, j - 1);
    }
  }

  // Process `p` flushes from step `j` on with nothing in between.
  ghost predicate SerialFlush(steps: seq<Step>, j: nat, p: Pid, t: TaskId) {
    && j + 2 < |steps|
    && steps[j] == Copy(p, t) && steps[j + 1].Load? && steps[j + 1].t == t && steps[j + 2] == Write(t)
  }

  /** A contribution that a race kept off the disk is back after the loser's next uninterrupted flush: the
      disk then holds at least what the process ever held, and at least what was on disk before. */
  lemma LostCountsReturn(states: seq<State>, steps: seq<Step>, i: nat, j: nat, p: Pid, t: TaskId, id: Id)
    requires Run(states, steps) && i <= j && SerialFlush(steps, j, p, t) && p in states[i].memory
    ensures At(states[j + 3].disk, id).count >= At(states[i].memory[p], id).count
    ensures p in states[j].memory && IsJoin(states[j].disk, states[j].memory[p], states[j + 3].disk)
  {
    MemoryOnlyGrows(states, steps, i, j, p, id);
    assert StepAt(states, steps, j) && StepAt(states, steps, j + 1) && StepAt(states, steps, j + 2);
    var before, mine, after := states[j].disk, states[j].memory[p], states[j + 3].disk;
    assert IsJoin(before, mine, after);
    JoinIsLeastUpperBound(before, mine, after, after);
  }

  // ----- exactly what is lost -----

  // A process records an access without knowing of all that are known to some process or the file.
  predicate Stale(s: State, step: Step, lost: nat, id: Id) {
    && step.Record? && step.id == id && step.p in s.memory
    && At(s.memory[step.p], id).count + lost < TruthAt(s, id)
  }

  // The number of stale records among the first `i` steps.
  ghost function Lost(states: seq<State>, steps: seq<Step>, i: nat, id: Id): nat
    requires |states| == |steps| + 1 && i < |states|
  {
    if i == 0 then 0
    else
      var earlier := Lost(states, steps, i - 1, id);
      earlier + (if Stale(states[i - 1], steps[i - 1], earlier, id) then 1 else 0)
  }

  // The largest count on disk or in a process is `best`.
  ghost predicate BestIs(s: State, id: Id, best: int) {
    && At(s.disk, id).count <= best
    && (forall p <- s.memory :: At(s.memory[p], id).count <= best)
    && (At(s.disk, id).count == best || exists p <- s.memory :: At(s.memory[p], id).count == best)
  }

  function CountsOf(t: Task): Journal {
    match t case Copied(_, counts) => counts case Merged(_, result) => result
  }

  // Who can hold how many: `base` is what the file held at the start and never falls below.
  ghost predicate Holds(s: State, id: Id, base: nat, best: int) {
    && base <= At(s.disk, id).count <= best
    && (forall p <- s.memory :: At(s.memory[p], id).count <= best)
    && (forall t <- s.tasks :: At(CountsOf(s.tasks[t]), id).count <= best)
    && (forall t <- s.tasks :: s.tasks[t].Merged? ==> base <= At(s.tasks[t].result, id).count)
    && (base == best || exists p <- s.memory :: At(s.memory[p], id).count == best)
  }

  lemma RecordHolds(s: State, step: Step, s': State, id: Id, base: nat, lost: nat)
    requires Next(s, step, s') && step.Record? && Holds(s, id, base, TruthAt(s, id) - lost)
    ensures Holds(s', id, base, TruthAt(s', id) - lost - (if Stale(s, step, lost, id) then 1 else 0))
  {
    var best, p := TruthAt(s, id) - lost, step.p;
    if step.id == id && !Stale(s, step, lost, id) {
      assert At(s'.memory[p], id).count == best + 1;
    } else if base != best {
      var q :| q in s.memory && At(s.memory[q], id).count == best;
      assert q in s'.memory && At(s'.memory[q], id).count == best;
    }
  }

  lemma OtherStepHolds(s: State, step: Step, s': State, id: Id, base: nat, best: int)
    requires Next(s, step, s') && !step.Record? && Holds(s, id, base, best)
    ensures Holds(s', id, base, best)
  {
    if base != best {
      var q :| q in s.memory && At(s.memory[q], id).count == best;
      assert q in s'.memory && At(s'.memory[q], id).count == best;
    }
    if step.Load? {
      MergedAt(s.disk, s.tasks[step.t].counts, step.merged, id);
    }
  }

  lemma {:induction false} RunHolds(states: seq<State>, steps: seq<Step>, i: nat, id: Id)
    requires Run(states, steps) && i < |states|
    ensures Holds(states[i], id, At(states[0].disk, id).count, TruthAt(states[i], id) - Lost(states, steps, i, id))
  {
    if i > 0 {
      RunHolds(states, steps, i - 1, id);
      assert StepAt(states, steps, i - 1);
      var s, step, s' := states[i - 1], steps[i - 1], states[i];
      if step.Record? {
        RecordHolds(s, step, s', id, At(states[0].disk, id).count, Lost(states, steps, i - 1, id));
      } else {
        OtherStepHolds(s, step, s', id, At(states[0].disk, id).count, TruthAt(s, id) - Lost(states, steps, i - 1, id));
      }
    }
  }

  /** In every interleaving the best count anywhere falls short of the true one by exactly the number of
      records made by a process that was behind at that moment. */
  lemma LossIsTheStaleRecords(states: seq<State>, steps: seq<Step>, i: nat, id: Id)
    requires Run(states, steps) && i < |states|
    ensures BestIs(states[i], id, TruthAt(states[i], id) - Lost(states, steps, i, id))
  {
    RunHolds(states, steps, i, id);
  }

  // At step `j`, if it records `id`, the process knows the true number.
  ghost predicate InformedAt(states: seq<State>, steps: seq<Step>, j: nat, id: Id)
    requires |states| == |steps| + 1 && j < |steps|
  {
    var step := steps[j];
    step.Record? && step.id == id && step.p in states[j].memory ==>
      At(states[j].memory[step.p], id).count == TruthAt(states[j], id)
  }

  lemma {:induction false} NothingLostIff(states: seq<State>, steps: seq<Step>, i: nat, id: Id)
    requires Run(states, steps) && i < |states|
    ensures Lost(states, steps, i, id) == 0 <==> forall j :: 0 <= j < i ==> InformedAt(states, steps, j, id)
  {
    if i > 0 {
      NothingLostIff(states, steps, i - 1, id);
      RunHolds(states, steps, i - 1, id);
      if Lost(states, steps, i - 1, id) == 0 {
        assert InformedAt(states, steps, i - 1, id) <==> !Stale(states[i - 1], steps[i - 1], 0, id);
      }
    }
  }

  // The true number of accesses is on disk or in some process.
  ghost predicate TruthIsKnown(s: State, id: Id) {
    At(s.disk, id).count == TruthAt(s, id) || exists p <- s.memory :: At(s.memory[p], id).count == TruthAt(s, id)
  }

  /** Max-merging keeps the true total exactly as long as every process that records an access knows of all
      earlier ones. */
  lemma TruthIsKnownIffAllInformed(states: seq<State>, steps: seq<Step>, i: nat, id: Id)
    requires Run(states, steps) && i < |states|
    ensures TruthIsKnown(states[i], id) <==> forall j :: 0 <= j < i ==> InformedAt(states, steps, j, id)
  {
    LossIsTheStaleRecords(states, steps, i, id);
    NothingLostIff(states, steps, i, id);
  }

  ghost predicate FlushesFrom(steps: seq<Step>, j: nat, ps: seq<Pid>) {
    && j + 3 * |ps| <= |steps|
    && forall k :: 0 <= k < |ps| ==> FlushAt(steps, j + 3 * k, ps[k])
  }

  ghost predicate FlushAt(steps: seq<Step>, j: nat, p: Pid) {
    j < |steps| && steps[j].Copy? && SerialFlush(steps, j, p, steps[j].t)
  }

  lemma FlushEffect(states: seq<State>, steps: seq<Step>, j: nat, p: Pid)
    requires Run(states, steps) && FlushAt(steps, j, p)
    ensures p in states[j].memory && IsJoin(states[j].disk, states[j].memory[p], states[j + 3].disk)
    ensures states[j + 3].memory == states[j].memory && states[j + 3].truth == states[j].truth
  {
    assert StepAt(states, steps, j) && StepAt(states, steps, j + 1) && StepAt(states, steps, j + 2);
  }

  lemma {:induction false} FlushesGather(
      states: seq<State>, steps: seq<Step>, j: nat, ps: seq<Pid>, n: nat, p: Pid, id: Id)
    requires Run(states, steps) && FlushesFrom(steps, j, ps) && n <= |ps|
    ensures states[j + 3 * n].memory == states[j].memory && states[j + 3 * n].truth == states[j].truth
    ensures At(states[j].disk, id).count <= At(states[j + 3 * n].disk, id).count
    ensures p in ps[..n] ==>
      p in states[j].memory && At(states[j].memory[p], id).count <= At(states[j + 3 * n].disk, id).count
  {
    if n > 0 {
      FlushesGather(states, steps, j, ps, n - 1, p, id);
      var m := j + 3 * (n - 1);
      assert FlushAt(steps, m, ps[n - 1]);
      FlushEffect(states, steps, m, ps[n - 1]);
      MergedAt(states[m].disk, states[m].memory[ps[n - 1]], states[m + 3].disk, id);
      assert ps[..n] == ps[..n - 1] + [ps[n - 1]];
    }
  }

  lemma {:induction false} FlushesLoseNothing(
      states: seq<State>, steps: seq<Step>, j: nat, ps: seq<Pid>, n: nat, id: Id)
    requires Run(states, steps) && FlushesFrom(steps, j, ps) && n <= |ps|
    ensures Lost(states, steps, j + 3 * n, id) == Lost(states, steps, j, id)
  {
    if n > 0 {
      FlushesLoseNothing(states, steps, j, ps, n - 1, id);
      var m := j + 3 * (n - 1);
      assert FlushAt(steps, m, ps[n - 1]);
      assert Lost(states, steps, m + 1, id) == Lost(states, steps, m, id);
      assert Lost(states, steps, m + 2, id) == Lost(states, steps, m, id);
    }
  }

  lemma FlushedFileIsBest(states: seq<State>, steps: seq<Step>, j: nat, ps: seq<Pid>, id: Id, best: int)
    requires Run(states, steps) && FlushesFrom(steps, j, ps) && states[j].memory.Keys <= Elems(ps)
    requires BestIs(states[j], id, best)
    ensures At(states[j + 3 * |ps|].disk, id).count >= best
    ensures TruthAt(states[j + 3 * |ps|], id) == TruthAt(states[j], id)
  {
    assert ps[..|ps|] == ps;
    FlushesGather(states, steps, j, ps, |ps|, 0, id);
    if At(states[j].disk, id).count != best {
      var p :| p in states[j].memory && At(states[j].memory[p], id).count == best;
      assert p in Elems(ps);
      FlushesGather(states, steps, j, ps, |ps|, p, id);
    }
  }

  /** After every process has flushed in turn, the file holds the true number of accesses less the stale
      records: the true number exactly if every record was informed. */
  lemma FlushedFileExactly(states: seq<State>, steps: seq<Step>, j: nat, ps: seq<Pid>, id: Id)
    requires Run(states, steps) && FlushesFrom(steps, j, ps) && states[j].memory.Keys <= Elems(ps)
    ensures At(states[j + 3 * |ps|].disk, id).count
         == TruthAt(states[j + 3 * |ps|], id) - Lost(states, steps, j, id)
    ensures At(states[j + 3 * |ps|].disk, id).count == TruthAt(states[j + 3 * |ps|], id)
       <==> forall k :: 0 <= k < j ==> InformedAt(states, steps, k, id)
  {
    LossIsTheStaleRecords(states, steps, j, id);
    FlushedFileIsBest(states, steps, j, ps, id, TruthAt(states[j], id) - Lost(states, steps, j, id));
    LossIsTheStaleRecords(states, steps, j + 3 * |ps|, id);
    FlushesLoseNothing(states, steps, j, ps, |ps|, id);
    NothingLostIff(states, steps, j, id);
  }

  /** The race itself: two processes start from one file, each records one access, and one is lost. */
  lemma TwoStartersLoseOne() returns (states: seq<State>, steps: seq<Step>)
    ensures Run(states, steps) && |states| == 5
    ensures TruthAt(states[4], 7) == 2 && BestIs(states[4], 7, 1)
  {
    var s0 := State(map[], map[], map[], map[]);
    var s1 := s0.(memory := map[0 := map[]]);
    var s2 := s0.(memory := map[0 := map[], 1 := map[]]);
    var one: Journal := map[7 := Stat(1, Some(5))];
    var s3 := s0.(memory := map[0 := one, 1 := map[]], truth := map[7 := 1]);
    var s4 := s0.(memory := map[0 := one, 1 := one], truth := map[7 := 2]);
    FourStepRun(s0, Start(0), s1, Start(1), s2, Record(0, 7, 5), s3, Record(1, 7, 5), s4);
    states, steps := [s0, s1, s2, s3, s4], [Start(0), Start(1), Record(0, 7, 5), Record(1, 7, 5)];
    assert At(s4.memory[0], 7).count == 1;
  }

  lemma JoinExists(a: Journal, b: Journal) returns (m: Journal)
    ensures IsJoin(a, b, m)
  {
    m := map id | id in a.Keys + b.Keys :: MergeStat(At(a, id), At(b, id));
  }

  /** The steps of a flush can be taken in any state, by any process that is there: afterwards the file is the
      join with what the process counted, and all else is as before. */
  lemma FlushRunsThrough(s: State, p: Pid, t: TaskId) returns (merged: Journal, s1: State, s2: State, s3: State)
    requires p in s.memory && t !in s.tasks
    ensures Next(s, Copy(p, t), s1) && Next(s1, Load(t, merged), s2) && Next(s2, Write(t), s3)
    ensures IsJoin(s.disk, s.memory[p], merged) && s3 == s.(disk := merged)
  {
    merged := JoinExists(s.disk, s.memory[p]);
    s1 := s.(tasks := s.tasks[t := Copied(p, s.memory[p])]);
    s2 := s1.(tasks := s1.tasks[t := Merged(p, merged)]);
    s3 := s2.(disk := merged, tasks := s2.tasks - {t});
    assert s3.tasks == s.tasks;
  }

  lemma FourStepRun(s0: State, a: Step, s1: State, b: Step, s2: State, c: Step, s3: State, d: Step, s4: State)
    requires Begin(s0) && Next(s0, a, s1) && Next(s1, b, s2) && Next(s2, c, s3) && Next(s3, d, s4)
    ensures Run([s0, s1, s2, s3, s4], [a, b, c, d])
  {
  }

  // ----- a rename beside flushes in flight -----

  // `rekey_ids` in process `p`: the file and the process are renamed, other processes and pending flushes are not.
  ghost predicate Renamed(s: State, p: Pid, mapping: map<Id, Id>, s': State) {
    && p in s.memory && p in s'.memory
    && (exists order :: IsRekeyed(s.disk, mapping, order, s'.disk))
    && (exists order :: IsRekeyed(s.memory[p], mapping, order, s'.memory[p]))
    && s'.memory == s.memory[p := s'.memory[p]] && s'.tasks == s.tasks
  }

  lemma RenamedHasNoSource(j: Journal, mapping: map<Id, Id>, r: Journal, x: Id)
    requires NoChain(mapping) && x in mapping && exists order :: IsRekeyed(j, mapping, order, r)
    ensures x !in r
  {
    var order :| IsRekeyed(j, mapping, order, r);
    OldIdsStayGone(j, mapping, order, r, map[], r, x);
  }

  /** Right after a rename the old id is neither on disk nor in the renaming process. A flush that was in
      flight brings it back exactly if the counts it had copied, or the merge it was about to write, hold
      it; one that the renaming process starts afterwards never does. */
  lemma InFlightFlushRevivesOldId(s: State, p: Pid, mapping: map<Id, Id>, s1: State, t: TaskId, x: Id)
    requires Renamed(s, p, mapping, s1) && NoChain(mapping) && x in mapping
    ensures x !in s1.disk && p in s1.memory && x !in s1.memory[p]
    ensures forall q <- s.memory :: q != p ==> q in s1.memory && s1.memory[q] == s.memory[q]
    ensures forall s2 :: Next(s1, Write(t), s2) ==> t in s.tasks && (x in s2.disk <==> x in s.tasks[t].result)
    ensures forall merged, s2, s3 :: Next(s1, Load(t, merged), s2) && Next(s2, Write(t), s3) ==>
      t in s.tasks && (x in s3.disk <==> x in s.tasks[t].counts)
    ensures forall merged, s2, s3, s4 ::
      Next(s1, Copy(p, t), s2) && Next(s2, Load(t, merged), s3) && Next(s3, Write(t), s4) ==> x !in s4.disk
  {
    RenamedHasNoSource(s.disk, mapping, s1.disk, x);
    RenamedHasNoSource(s.memory[p], mapping, s1.memory[p], x);
  }
}
