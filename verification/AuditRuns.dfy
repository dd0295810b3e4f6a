/** Any number of processes appending to and re-anchoring one audit log, step by step. */
module AuditRuns {
  import opened Prelude
  import opened AuditText
  import opened Audit

  type Pid = nat

  // Where a process stands in `append_event`. `ReanchorPath` verifies before it asks for the
  // lock, so its event waits in `Wanting` like any other.
  datatype Phase =
    | Idle
    | Wanting(event: Event)
    | Holding(event: Event)
    | Linked(event: Event)
    | BodyWritten(line: string)
    | LineWritten

  datatype State = State(text: string, lock: Option<Pid>, phase: map<Pid, Phase>)

  datatype Step =
    | Record(p: Pid, body: string)
    | Reanchor(p: Pid, body: string, acks: seq<nat>)
    | Acquire(p: Pid)
    | ReadTip(p: Pid)
    | WriteBody(p: Pid)
    | WriteNewline(p: Pid)
    | Release(p: Pid)
    | Crash(p: Pid)

  ghost predicate Next(c: Codec, s: State, step: Step, s': State) {
    && step.p in s.phase
    && var p, ph := step.p, s.phase[step.p];
    match step
    case Record(_, body) =>
      ph.Idle? && s' == s.(phase := s.phase[p := Wanting(Event(body, None, None))])
    case Reanchor(_, body, acks) =>
      && ph.Idle?
      && acks != [] && Increasing(acks) && Elems(acks) == Unacked(c, Lines(s.text))
      && s' == s.(phase := s.phase[p := Wanting(Event(body, None, Some(acks)))])
    case Acquire(_) =>
      ph.Wanting? && s.lock.None? && s' == s.(lock := Some(p), phase := s.phase[p := Holding(ph.event)])
    case ReadTip(_) =>
      && ph.Holding?
      && s' == s.(phase := s.phase[p := Phase.Linked(ph.event.(prevHash := Tip(c, Lines(s.text))))])
    case WriteBody(_) =>
      && ph.Linked?
      && s' == s.(text := s.text + c.write(ph.event), phase := s.phase[p := BodyWritten(c.write(ph.event))])
    case WriteNewline(_) =>
      ph.BodyWritten? && s' == s.(text := s.text + "\n", phase := s.phase[p := LineWritten])
    case Release(_) =>
      ph.LineWritten? && s' == s.(lock := None, phase := s.phase[p := Idle])
    case Crash(_) =>
      // The system drops a dead process's lock. Dying inside the write is a step of `AuditCrashes`.
      && !ph.BodyWritten?
      && s' == s.(lock := if s.lock == Some(p) then None else s.lock, phase := s.phase[p := Idle])
  }

  ghost predicate Start(s: State) {
    && Terminated(s.text) && !TailGap(Lines(s.text))
    && s.lock.None? && forall p <- s.phase :: s.phase[p].Idle?
  }

  ghost predicate Run(c: Codec, states: seq<State>, steps: seq<Step>) {
    && |states| == |steps| + 1
    && Start(states[0])
    && forall i :: 0 <= i < |steps| ==> StepAt(c, states, steps, i)
  }

  ghost predicate StepAt(c: Codec, states: seq<State>, steps: seq<Step>, i: nat)
    requires |states| == |steps| + 1 && i < |steps|
  {
    Next(c, states[i], steps[i], states[i + 1])
  }

  // ----- the invariant -----

  predicate Inside(ph: Phase) {
    ph.Holding? || ph.Linked? || ph.BodyWritten? || ph.LineWritten?
  }

  predicate CarriesEvent(ph: Phase) {
    ph.Wanting? || ph.Holding? || ph.Linked?
  }

  ghost predicate LockInv(s: State) {
    forall p <- s.phase :: Inside(s.phase[p]) <==> s.lock == Some(p)
  }

  // The file is one whole line after another, except for the line its lock holder is writing.
  ghost predicate TextInv(s: State) {
    if s.lock.Some? && s.lock.value in s.phase && s.phase[s.lock.value].BodyWritten? then
      var line := s.phase[s.lock.value].line;
      && SingleLine(line) && |line| <= |s.text|
      && var base := s.text[..|s.text| - |line|];
      s.text == base + line && Terminated(base)
    else Terminated(s.text)
  }

  ghost predicate ChainInv(c: Codec, start: seq<string>, s: State) {
    && !TailGap(Lines(s.text))
    && start <= Lines(s.text)
    && BreakSet(c, Lines(s.text)) == BreakSet(c, start)
    && forall p <- s.phase :: s.phase[p].Linked? ==> s.phase[p].event.prevHash == Tip(c, Lines(s.text))
  }

  // Acknowledgements name old breaks only, and a pending one names every break still open.
  ghost predicate AckInv(c: Codec, start: seq<string>, s: State) {
    LandedAcks(c, start, Lines(s.text)) && PendingAcks(c, start, s)
  }

  ghost predicate LandedAcks(c: Codec, start: seq<string>, lines: seq<string>) {
    forall k :: |start| <= k < |lines| ==> Elems(AcksOf(c, lines[k])) <= BreakSet(c, start)
  }

  ghost predicate PendingAcks(c: Codec, start: seq<string>, s: State) {
    forall p <- s.phase :: CarriesEvent(s.phase[p]) && s.phase[p].event.ackBreaks.Some? ==>
      && Unacked(c, Lines(s.text)) <= Elems(s.phase[p].event.ackBreaks.value)
      && Elems(s.phase[p].event.ackBreaks.value) <= BreakSet(c, start)
  }

  ghost predicate Inv(c: Codec, start: seq<string>, s: State) {
    LockInv(s) && TextInv(s) && ChainInv(c, start, s) && AckInv(c, start, s)
  }

  // The one step that changes the lines of the file.
  lemma WriteBodyEffect(c: Codec, start: seq<string>, s: State, p: Pid, s': State)
    requires c.Sound() && Inv(c, start, s) && Next(c, s, WriteBody(p), s')
    ensures Terminated(s.text)
    ensures Lines(s'.text) == Lines(s.text) + [c.write(s.phase[p].event)]
    ensures BreakSet(c, Lines(s'.text)) == BreakSet(c, start)
    ensures !TailGap(Lines(s'.text))
    ensures AcksOf(c, c.write(s.phase[p].event))
         == if s.phase[p].event.ackBreaks.Some? then s.phase[p].event.ackBreaks.value else []
    ensures Acked(c, Lines(s'.text)) == Acked(c, Lines(s.text)) + Elems(AcksOf(c, c.write(s.phase[p].event)))
  {
    var e := s.phase[p].event;
    assert s.lock == Some(p);
    assert e.(prevHash := Tip(c, Lines(s.text))) == e;
    AppendBreaksIffTailGap(c, s.text, e);
    LinesAppend(s.text, c.write(e));
    BreaksAfterLine(c, Lines(s.text), c.write(e));
    assert c.parse(c.write(e)) == Some(e);
  }

  lemma WriteNewlineEffect(c: Codec, start: seq<string>, s: State, p: Pid, s': State)
    requires Inv(c, start, s) && Next(c, s, WriteNewline(p), s')
    ensures Terminated(s'.text) && Lines(s'.text) == Lines(s.text)
  {
    assert s.lock == Some(p);
    var line := s.phase[p].line;
    LinesAppend(s.text[..|s.text| - |line|], line);
  }

  lemma NextKeepsLock(c: Codec, s: State, step: Step, s': State)
    requires LockInv(s) && Next(c, s, step, s')
    ensures LockInv(s')
  {
    forall q | q in s'.phase
      ensures Inside(s'.phase[q]) <==> s'.lock == Some(q)
    {
      assert q in s.phase && (q != step.p ==> s'.phase[q] == s.phase[q]);
    }
  }

  ghost predicate Quiet(step: Step) {
    !step.WriteBody? && !step.WriteNewline?
  }

  lemma QuietKeepsText(c: Codec, s: State, step: Step, s': State)
    requires LockInv(s) && TextInv(s) && Next(c, s, step, s') && Quiet(step)
    ensures s'.text == s.text && TextInv(s')
  {
    if s'.lock.Some? && s'.lock.value in s'.phase && s'.phase[s'.lock.value].BodyWritten? {
      var q := s'.lock.value;
      assert q != step.p && s.lock == s'.lock && s.phase[q] == s'.phase[q];
    }
  }

  lemma QuietKeepsChain(c: Codec, start: seq<string>, s: State, step: Step, s': State)
    requires ChainInv(c, start, s) && Next(c, s, step, s') && Quiet(step)
    ensures ChainInv(c, start, s')
  {
    assert forall q <- s'.phase :: q in s.phase && (q != step.p ==> s'.phase[q] == s.phase[q]);
  }

  lemma QuietKeepsAcks(c: Codec, start: seq<string>, s: State, step: Step, s': State)
    requires ChainInv(c, start, s) && AckInv(c, start, s) && Next(c, s, step, s') && Quiet(step)
    ensures AckInv(c, start, s')
  {
    assert forall q <- s'.phase :: q in s.phase && (q != step.p ==> s'.phase[q] == s.phase[q]);
  }

  lemma QuietStep(c: Codec, start: seq<string>, s: State, step: Step, s': State)
    requires Inv(c, start, s) && Next(c, s, step, s') && Quiet(step)
    ensures s'.text == s.text && TextInv(s') && ChainInv(c, start, s') && AckInv(c, start, s')
  {
    QuietKeepsText(c, s, step, s');
    QuietKeepsChain(c, start, s, step, s');
    QuietKeepsAcks(c, start, s, step, s');
  }

  lemma BodyKeepsChain(c: Codec, start: seq<string>, s: State, p: Pid, s': State)
    requires c.Sound() && Inv(c, start, s) && Next(c, s, WriteBody(p), s')
    ensures TextInv(s') && ChainInv(c, start, s')
  {
    WriteBodyEffect(c, start, s, p, s');
    assert s'.text[..|s'.text| - |s'.phase[p].line|] == s.text;
    assert forall q <- s'.phase :: q in s.phase && (q != p ==> s'.phase[q] == s.phase[q] && !Inside(s.phase[q]));
  }

  // With fewer breaks open, a pending acknowledgement still names them all.
  lemma PendingStays(c: Codec, start: seq<string>, s: State, p: Pid, s': State)
    requires PendingAcks(c, start, s) && p in s.phase && p in s'.phase && !CarriesEvent(s'.phase[p])
    requires s'.phase == s.phase[p := s'.phase[p]]
    requires Unacked(c, Lines(s'.text)) <= Unacked(c, Lines(s.text))
    ensures PendingAcks(c, start, s')
  {
    forall q | q in s'.phase && CarriesEvent(s'.phase[q])
      ensures q in s.phase && s'.phase[q] == s.phase[q]
    {
    }
  }

  lemma BodyKeepsPending(c: Codec, start: seq<string>, s: State, p: Pid, s': State)
    requires c.Sound() && Inv(c, start, s) && Next(c, s, WriteBody(p), s')
    ensures PendingAcks(c, start, s')
  {
    assert Unacked(c, Lines(s'.text)) <= Unacked(c, Lines(s.text)) by {
      WriteBodyEffect(c, start, s, p, s');
    }
    PendingStays(c, start, s, p, s');
  }

  lemma BodyLands(c: Codec, start: seq<string>, s: State, p: Pid, s': State)
    requires c.Sound() && Inv(c, start, s) && Next(c, s, WriteBody(p), s')
    ensures LandedAcks(c, start, Lines(s'.text))
  {
    WriteBodyEffect(c, start, s, p, s');
    var lines, longer := Lines(s.text), Lines(s'.text);
    forall k | |start| <= k < |longer|
      ensures Elems(AcksOf(c, longer[k])) <= BreakSet(c, start)
    {
      if k < |lines| {
        assert longer[k] == lines[k];
      }
    }
  }

  lemma NewlineStep(c: Codec, start: seq<string>, s: State, p: Pid, s': State)
    requires Inv(c, start, s) && Next(c, s, WriteNewline(p), s')
    ensures TextInv(s') && ChainInv(c, start, s') && AckInv(c, start, s')
  {
    WriteNewlineEffect(c, start, s, p, s');
    forall q | q in s'.phase && q != p
      ensures q in s.phase && s'.phase[q] == s.phase[q]
    {
    }
  }

  lemma NextKeepsInv(c: Codec, start: seq<string>, s: State, step: Step, s': State)
    requires c.Sound() && Inv(c, start, s) && Next(c, s, step, s')
    ensures Inv(c, start, s')
  {
    NextKeepsLock(c, s, step, s');
    match step {
      case WriteBody(p) =>
        BodyKeepsChain(c, start, s, p, s');
        BodyKeepsPending(c, start, s, p, s');
        BodyLands(c, start, s, p, s');
      case WriteNewline(p) => NewlineStep(c, start, s, p, s');
      case _ => QuietStep(c, start, s, step, s');
    }
  }

  lemma NextGrows(c: Codec, start: seq<string>, s: State, step: Step, s': State)
    requires c.Sound() && Inv(c, start, s) && Next(c, s, step, s')
    ensures Lines(s.text) <= Lines(s'.text)
    ensures Acked(c, Lines(s.text)) <= Acked(c, Lines(s'.text))
  {
    match step {
      case WriteBody(p) => WriteBodyEffect(c, start, s, p, s');
      case WriteNewline(p) => WriteNewlineEffect(c, start, s, p, s');
      case _ => QuietStep(c, start, s, step, s');
    }
  }

  lemma StartsInInv(c: Codec, s: State)
    requires Start(s)
    ensures Inv(c, Lines(s.text), s)
  {
    assert forall p <- s.phase :: !Inside(s.phase[p]) && !CarriesEvent(s.phase[p]);
  }

  lemma NextInRun(c: Codec, states: seq<State>, steps: seq<Step>, i: nat)
    requires Run(c, states, steps) && i < |steps|
    ensures Next(c, states[i], steps[i], states[i + 1])
  {
    assert StepAt(c, states, steps, i);
  }

  lemma {:induction false} RunKeepsInv(c: Codec, states: seq<State>, steps: seq<Step>, i: nat)
    requires c.Sound() && Run(c, states, steps) && i < |states|
    ensures Inv(c, Lines(states[0].text), states[i])
  {
    if i == 0 {
      StartsInInv(c, states[0]);
    } else {
      RunKeepsInv(c, states, steps, i - 1);
      NextInRun(c, states, steps, i - 1);
      NextKeepsInv(c, Lines(states[0].text), states[i - 1], steps[i - 1], states[i]);
    }
  }

  // ----- the results, for every interleaving -----

  /** No append adds a break, none repairs one, and no line once written changes. */
  lemma NoInterleavingBreaksTheChain(c: Codec, states: seq<State>, steps: seq<Step>, i: nat, j: nat)
    requires c.Sound() && Run(c, states, steps) && i <= j < |states|
    ensures BreakSet(c, Lines(states[j].text)) == BreakSet(c, Lines(states[0].text))
    ensures Lines(states[i].text) <= Lines(states[j].text)
  {
    BreaksNeverChange(c, states, steps, j);
    LinesOnlyGrow(c, states, steps, i, j);
  }

  lemma BreaksNeverChange(c: Codec, states: seq<State>, steps: seq<Step>, i: nat)
    requires c.Sound() && Run(c, states, steps) && i < |states|
    ensures BreakSet(c, Lines(states[i].text)) == BreakSet(c, Lines(states[0].text))
  {
    RunKeepsInv(c, states, steps, i);
  }

  // What a run only adds to: the lines of the file and the acknowledged numbers.
  ghost predicate Grown(c: Codec, before: string, after: string) {
    Lines(before) <= Lines(after) && Acked(c, Lines(before)) <= Acked(c, Lines(after))
  }

  lemma StepGrows(c: Codec, states: seq<State>, steps: seq<Step>, i: nat)
    requires c.Sound() && Run(c, states, steps) && i < |steps|
    ensures Grown(c, states[i].text, states[i + 1].text)
  {
    RunKeepsInv(c, states, steps, i);
    assert StepAt(c, states, steps, i);
    NextGrows(c, Lines(states[0].text), states[i], steps[i], states[i + 1]);
  }

  lemma {:induction false} GrownTransitive(c: Codec, texts: seq<string>, i: nat, j: nat)
    requires i <= j < |texts|
    requires forall k :: 0 < k < |texts| ==> Grown(c, texts[k - 1], texts[k])
    ensures Grown(c, texts[i], texts[j])
  {
    if i < j {
      GrownTransitive(c, texts, i, j - 1);
    }
  }

  lemma LinesOnlyGrow(c: Codec, states: seq<State>, steps: seq<Step>, i: nat, j: nat)
    requires c.Sound() && Run(c, states, steps) && i <= j < |states|
    ensures Grown(c, states[i].text, states[j].text)
  {
    var texts := seq(|states|, k requires 0 <= k < |states| => states[k].text);
    forall k | 0 < k < |texts|
      ensures Grown(c, texts[k - 1], texts[k])
    {
      StepGrows(c, states, steps, k - 1);
    }
    GrownTransitive(c, texts, i, j);
  }

  /** Two processes are never both between taking and dropping the lock. */
  lemma MutualExclusion(c: Codec, states: seq<State>, steps: seq<Step>, i: nat, p: Pid, q: Pid)
    requires c.Sound() && Run(c, states, steps) && i < |states|
    requires p in states[i].phase && q in states[i].phase
    requires Inside(states[i].phase[p]) && Inside(states[i].phase[q])
    ensures p == q
  {
    RunKeepsInv(c, states, steps, i);
  }

  ghost predicate LandsReanchor(c: Codec, s: State, step: Step, s': State) {
    step.WriteBody? && Next(c, s, step, s') && s.phase[step.p].event.ackBreaks.Some?
  }

  lemma LandingSettles(c: Codec, start: seq<string>, s: State, step: Step, s': State)
    requires c.Sound() && Inv(c, start, s) && LandsReanchor(c, s, step, s')
    ensures Unacked(c, Lines(s'.text)) == {}
  {
    WriteBodyEffect(c, start, s, step.p, s');
  }

  lemma SettledStaysSettled(c: Codec, before: string, after: string)
    requires Grown(c, before, after) && BreakSet(c, Lines(after)) == BreakSet(c, Lines(before))
    requires Unacked(c, Lines(before)) == {}
    ensures Unacked(c, Lines(after)) == {}
  {
    assert forall n <- BreakSet(c, Lines(before)) ::
        n in Unacked(c, Lines(before)) || n in Acked(c, Lines(before));
  }

  lemma SettledForever(c: Codec, states: seq<State>, steps: seq<Step>, i: nat, j: nat)
    requires c.Sound() && Run(c, states, steps) && i <= j < |states|
    requires Unacked(c, Lines(states[i].text)) == {}
    ensures Unacked(c, Lines(states[j].text)) == {}
  {
    var before, after := states[i].text, states[j].text;
    BreaksNeverChange(c, states, steps, i);
    BreaksNeverChange(c, states, steps, j);
    LinesOnlyGrow(c, states, steps, i, j);
    SettledStaysSettled(c, before, after);
  }

  /** Whatever landed between the unlocked verification and the write, once a re-anchoring event
      is in the file nothing is left unacknowledged, then or ever after. */
  lemma ReanchorSettlesEveryBreak(c: Codec, states: seq<State>, steps: seq<Step>, i: nat, j: nat)
    requires c.Sound() && Run(c, states, steps) && i < j < |states|
    requires LandsReanchor(c, states[i], steps[i], states[i + 1])
    ensures Unacked(c, Lines(states[j].text)) == {}
  {
    var s, s' := states[i], states[i + 1];
    assert Unacked(c, Lines(s'.text)) == {} by {
      RunKeepsInv(c, states, steps, i);
      LandingSettles(c, Lines(states[0].text), s, steps[i], s');
    }
    SettledForever(c, states, steps, i + 1, j);
  }

  /** A line number acknowledged by an event written during the run is below that event's own. */
  lemma NoBreakIsAcknowledgedInAdvance(
      c: Codec, states: seq<State>, steps: seq<Step>, i: nat, k: nat, n: nat)
    requires c.Sound() && Run(c, states, steps) && i < |states|
    requires |Lines(states[0].text)| <= k < |Lines(states[i].text)|
    requires n in AcksOf(c, Lines(states[i].text)[k])
    ensures n < k + 1 && n in BreakSet(c, Lines(states[0].text))
  {
    RunKeepsInv(c, states, steps, i);
    assert n in Elems(AcksOf(c, Lines(states[i].text)[k]));
  }

  // ----- the steps and the whole call -----

  // Process `p` goes through its critical section from step `i` on with nothing in between.
  ghost predicate Uninterrupted(steps: seq<Step>, i: nat, p: Pid) {
    && i + 5 <= |steps|
    && steps[i] == Acquire(p) && steps[i + 1] == ReadTip(p) && steps[i + 2] == WriteBody(p)
    && steps[i + 3] == WriteNewline(p) && steps[i + 4] == Release(p)
  }

  lemma LinkSteps(c: Codec, s0: State, s1: State, s2: State, p: Pid)
    requires Next(c, s0, Acquire(p), s1) && Next(c, s1, ReadTip(p), s2)
    ensures s2.text == s0.text && p in s2.phase && s0.phase[p].Wanting?
    ensures s2.phase[p] == Phase.Linked(Audit.Linked(c, s0.text, s0.phase[p].event))
  {
  }

  lemma WriteSteps(c: Codec, s2: State, s3: State, s4: State, s5: State, p: Pid)
    requires Next(c, s2, WriteBody(p), s3) && Next(c, s3, WriteNewline(p), s4) && Next(c, s4, Release(p), s5)
    ensures p in s2.phase && s2.phase[p].Linked?
    ensures s5.text == s2.text + c.write(s2.phase[p].event) + "\n" && s5.lock.None?
  {
  }

  /** Uninterrupted, the five steps are the append as one call performs it. */
  lemma UninterruptedStepsAppend(c: Codec, states: seq<State>, steps: seq<Step>, i: nat, p: Pid)
    requires Run(c, states, steps) && Uninterrupted(steps, i, p)
    ensures p in states[i].phase && states[i].phase[p].Wanting?
    ensures states[i + 5].text == Appended(c, states[i].text, states[i].phase[p].event)
  {
    assert StepAt(c, states, steps, i) && StepAt(c, states, steps, i + 1) && StepAt(c, states, steps, i + 2)
        && StepAt(c, states, steps, i + 3) && StepAt(c, states, steps, i + 4);
    LinkSteps(c, states[i], states[i + 1], states[i + 2], p);
    WriteSteps(c, states[i + 2], states[i + 3], states[i + 4], states[i + 5], p);
  }

  /** The steps can be taken: a process that wants to append while the lock is free gets through all five, and
      leaves the file as the whole call does, the lock free and every other process where it was. */
  lemma CallRunsThrough(c: Codec, s: State, p: Pid)
      returns (s1: State, s2: State, s3: State, s4: State, s5: State)
    requires p in s.phase && s.phase[p].Wanting? && s.lock.None?
    ensures Next(c, s, Acquire(p), s1) && Next(c, s1, ReadTip(p), s2) && Next(c, s2, WriteBody(p), s3)
    ensures Next(c, s3, WriteNewline(p), s4) && Next(c, s4, Release(p), s5)
    ensures s5 == State(Appended(c, s.text, s.phase[p].event), None, s.phase[p := Idle])
  {
    var e := s.phase[p].event;
    var linked := Audit.Linked(c, s.text, e);
    s1 := s.(lock := Some(p), phase := s.phase[p := Holding(e)]);
    s2 := s1.(phase := s.phase[p := Phase.Linked(linked)]);
    s3 := s2.(text := s.text + c.write(linked), phase := s.phase[p := BodyWritten(c.write(linked))]);
    s4 := s3.(text := s3.text + "\n", phase := s.phase[p := LineWritten]);
    s5 := s4.(lock := None, phase := s.phase[p := Idle]);
    assert s1.phase[p := s2.phase[p]] == s2.phase;
    assert s2.phase[p := s3.phase[p]] == s3.phase && s3.phase[p := s4.phase[p]] == s4.phase;
    assert s4.phase[p := s5.phase[p]] == s5.phase;
  }

  /** An idle process can always record an event. */
  lemma IdleCanRecord(c: Codec, s: State, p: Pid, body: string) returns (s': State)
    requires p in s.phase && s.phase[p].Idle?
    ensures Next(c, s, Record(p, body), s') && s'.phase[p] == Wanting(Event(body, None, None))
  {
    s' := s.(phase := s.phase[p := Wanting(Event(body, None, None))]);
  }

  /** It can re-anchor when something is open, with an event that names exactly what is. */
  lemma IdleCanReanchor(c: Codec, s: State, p: Pid, body: string) returns (acks: seq<nat>, s': State)
    requires p in s.phase && s.phase[p].Idle? && Unacked(c, Lines(s.text)) != {}
    ensures Next(c, s, Reanchor(p, body, acks), s') && s'.phase[p] == Wanting(Event(body, None, Some(acks)))
    ensures Elems(acks) == Unacked(c, Lines(s.text))
  {
    var lines := Lines(s.text);
    acks := OpenBreaks(c, lines, BreakList(c, lines, |lines|), Acked(c, lines));
    s' := s.(phase := s.phase[p := Wanting(Event(body, None, Some(acks)))]);
  }

  /** And only then. */
  lemma ReanchorNeedsOpen(c: Codec, s: State, p: Pid, body: string, acks: seq<nat>, s': State)
    requires Next(c, s, Reanchor(p, body, acks), s')
    ensures Unacked(c, Lines(s.text)) != {}
  {
    assert acks[0] in Elems(acks);
  }
}
