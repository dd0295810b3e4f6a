/** The audit log when a process may die at any point of its write: what torn lines do to the chain. */
module AuditCrashes {
  import opened Prelude
  import opened AuditText
  import opened Audit
  import Runs = AuditRuns

  type State = Runs.State

  // Besides the steps of an undisturbed process: dying with the first `n` characters of the line written, and
  // dying between the line and its newline.
  datatype Step = Plain(step: Runs.Step) | Tear(p: nat, n: nat) | LoseNewline(p: nat)

  ghost predicate Next(c: Codec, s: State, step: Step, s': State) {
    match step
    case Plain(plain) => Runs.Next(c, s, plain, s')
    case Tear(p, n) =>
      && p in s.phase && s.phase[p].Linked? && 0 < n <= |c.write(s.phase[p].event)|
      && s' == s.(text := s.text + c.write(s.phase[p].event)[..n], lock := None, phase := s.phase[p := Runs.Idle])
    case LoseNewline(p) =>
      && p in s.phase && s.phase[p].BodyWritten?
      && s' == s.(lock := None, phase := s.phase[p := Runs.Idle])
  }

  ghost predicate StepAt(c: Codec, states: seq<State>, steps: seq<Step>, i: nat)
    requires |states| == |steps| + 1 && i < |steps|
  {
    Next(c, states[i], steps[i], states[i + 1])
  }

  ghost predicate Run(c: Codec, states: seq<State>, steps: seq<Step>) {
    && |states| == |steps| + 1 && Runs.Start(states[0])
    && forall i :: 0 <= i < |steps| ==> StepAt(c, states, steps, i)
  }

  // What torn writes can leave at the end of the file: beginnings of lines, one glued to the other.
  ghost predicate TornTail(c: Codec, tail: string)
    decreases |tail|
  {
    exists k: nat, e: Event ::
      k < |tail| && tail[k..] <= c.write(e) && (k == 0 || TornTail(c, tail[..k]))
  }

  // The first `n` characters of a line, after a torn tail or none, parse only if they are the whole line alone.
  ghost predicate Unreadable(c: Codec, tail: string, e: Event, n: nat) {
    && 0 < n <= |c.write(e)|
    && (if tail == [] then n < |c.write(e)| else TornTail(c, tail))
    ==> c.parse(tail + c.write(e)[..n]).None?
  }

  ghost predicate GlueFree(c: Codec) {
    forall tail, e, n: nat {:trigger Unreadable(c, tail, e, n)} :: Unreadable(c, tail, e, n)
  }

  // A torn tail is no break after the whole lines `base`.
  ghost predicate HarmlessTail(c: Codec, base: string, tail: string) {
    && '\n' !in tail
    && (tail != [] ==> TornTail(c, tail) && !BreakLine(c, Lines(base) + [tail], |Lines(base)| + 1))
  }

  ghost predicate SoundBase(c: Codec, start: string, base: string) {
    && Terminated(start) && Terminated(base) && start <= base
    && !TailGap(Lines(base)) && BreakSet(c, Lines(base)) == BreakSet(c, Lines(start))
  }

  // The file is whole lines, then possibly a torn tail; neither adds a break to those of `start`.
  ghost predicate Shape(c: Codec, start: string, text: string, base: string, tail: string) {
    text == base + tail && SoundBase(c, start, base) && HarmlessTail(c, base, tail)
  }

  // Who has read the tip has read the right one; who has written a line has ended a whole one.
  ghost predicate PhasesFit(c: Codec, s: State, tail: string) {
    && (forall p <- s.phase :: s.phase[p].Linked? ==> s.phase[p].event.prevHash == Tip(c, Lines(s.text)))
    && (forall p <- s.phase :: s.phase[p].BodyWritten? ==> SingleLine(tail))
  }

  ghost predicate Inv(c: Codec, start: string, s: State, base: string, tail: string) {
    Runs.LockInv(s) && Shape(c, start, s.text, base, tail) && PhasesFit(c, s, tail)
  }

  lemma UnreadLineIsNoBreak(c: Codec, lines: seq<string>, line: string)
    requires c.parse(line).None?
    ensures !BreakLine(c, lines + [line], |lines| + 1)
  {
  }

  lemma WholeLineIsNoBreak(c: Codec, base: string, e: Event)
    requires c.Sound() && !TailGap(Lines(base)) && e.prevHash == Tip(c, Lines(base))
    ensures !BreakLine(c, Lines(base) + [c.write(e)], |Lines(base)| + 1)
  {
    assert e.(prevHash := Tip(c, Lines(base))) == e;
    LinkedLineBreaksIffTailGap(c, Lines(base), e);
  }

  lemma NothingBefore(base: string, line: string)
    ensures base + [] == base && [] + line == line && line[..|line|] == line
  {
  }

  lemma PartIsNoBreak(c: Codec, base: string, tail: string, e: Event, n: nat)
    requires c.Sound() && GlueFree(c) && !TailGap(Lines(base)) && (tail != [] ==> TornTail(c, tail))
    requires e.prevHash == Tip(c, Lines(base + tail)) && 0 < n <= |c.write(e)|
    ensures !BreakLine(c, Lines(base) + [tail + c.write(e)[..n]], |Lines(base)| + 1)
  {
    if tail == [] && n == |c.write(e)| {
      NothingBefore(base, c.write(e));
      WholeLineIsNoBreak(c, base, e);
    } else {
      assert Unreadable(c, tail, e, n);
      UnreadLineIsNoBreak(c, Lines(base), tail + c.write(e)[..n]);
    }
  }

  lemma LongerTail(c: Codec, tail: string, e: Event, n: nat)
    requires c.RoundTrips() && '\n' !in tail && (tail != [] ==> TornTail(c, tail)) && 0 < n <= |c.write(e)|
    ensures TornTail(c, tail + c.write(e)[..n]) && '\n' !in tail + c.write(e)[..n]
  {
    var longer, k := tail + c.write(e)[..n], |tail|;
    assert SingleLine(c.write(e));
    assert longer[k..] == c.write(e)[..n] && longer[..k] == tail;
    assert longer[k..] <= c.write(e);
  }

  lemma PartIsHarmless(c: Codec, start: string, base: string, tail: string, e: Event, n: nat)
    requires c.Sound() && GlueFree(c) && SoundBase(c, start, base) && HarmlessTail(c, base, tail)
    requires e.prevHash == Tip(c, Lines(base + tail)) && 0 < n <= |c.write(e)|
    ensures HarmlessTail(c, base, tail + c.write(e)[..n])
  {
    PartIsNoBreak(c, base, tail, e, n);
    LongerTail(c, tail, e, n);
  }

  lemma Regroup(text: string, base: string, tail: string, part: string)
    requires text == base + tail
    ensures text + part == base + (tail + part)
  {
  }

  lemma NewlineKeepsShape(c: Codec, start: string, base: string, tail: string)
    requires Shape(c, start, base + tail, base, tail) && SingleLine(tail)
    ensures Shape(c, start, base + tail + "\n", base + tail + "\n", [])
  {
    LinesAppend(base, tail);
    BreaksAfterLine(c, Lines(base), tail);
    assert base + tail + "\n" + [] == base + tail + "\n";
  }

  lemma NextKeepsLock(c: Codec, s: State, step: Step, s': State)
    requires Runs.LockInv(s) && Next(c, s, step, s')
    ensures Runs.LockInv(s')
  {
    if step.Plain? {
      Runs.NextKeepsLock(c, s, step.step, s');
    } else {
      forall q | q in s'.phase
        ensures Runs.Inside(s'.phase[q]) <==> s'.lock == Some(q)
      {
        assert q in s.phase && (q != step.p ==> s'.phase[q] == s.phase[q]);
      }
    }
  }

  // After the lock holder `p` has written, nobody else is inside.
  lemma WriterPhases(c: Codec, s: State, p: nat, n: nat, s': State, tail: string)
    requires c.RoundTrips() && Runs.LockInv(s) && '\n' !in tail
    requires p in s.phase && s.phase[p].Linked? && 0 < n <= |c.write(s.phase[p].event)|
    requires s'.phase == s.phase[p := Runs.Idle]
          || (n == |c.write(s.phase[p].event)| && s'.phase == s.phase[p := Runs.BodyWritten(c.write(s.phase[p].event))])
    ensures PhasesFit(c, s', tail + c.write(s.phase[p].event)[..n])
  {
    var line := c.write(s.phase[p].event);
    assert s.lock.Some? && s.lock.value == p;
    assert forall q <- s'.phase :: q != p ==> q in s.phase && s'.phase[q] == s.phase[q] && !Runs.Inside(s.phase[q]);
    assert SingleLine(line) && line[..|line|] == line;
    GluedIsSingleLine(tail, line);
  }

  lemma WriterStep(c: Codec, start: string, s: State, p: nat, n: nat, s': State, base: string, tail: string)
    requires c.Sound() && GlueFree(c) && Inv(c, start, s, base, tail) && Runs.LockInv(s')
    requires p in s.phase && s.phase[p].Linked? && 0 < n <= |c.write(s.phase[p].event)|
    requires s'.text == s.text + c.write(s.phase[p].event)[..n]
    requires s'.phase == s.phase[p := Runs.Idle]
          || (n == |c.write(s.phase[p].event)| && s'.phase == s.phase[p := Runs.BodyWritten(c.write(s.phase[p].event))])
    ensures Inv(c, start, s', base, tail + c.write(s.phase[p].event)[..n])
  {
    PartIsHarmless(c, start, base, tail, s.phase[p].event, n);
    Regroup(s.text, base, tail, c.write(s.phase[p].event)[..n]);
    WriterPhases(c, s, p, n, s', tail);
  }

  lemma NewlineStep(c: Codec, start: string, s: State, p: nat, s': State, base: string, tail: string)
    requires Inv(c, start, s, base, tail) && Runs.Next(c, s, Runs.WriteNewline(p), s') && Runs.LockInv(s')
    ensures Inv(c, start, s', base + tail + "\n", [])
  {
    NewlineKeepsShape(c, start, base, tail);
    assert s.lock.Some? && s.lock.value == p;
    assert forall q <- s'.phase :: q != p ==> q in s.phase && s'.phase[q] == s.phase[q] && !Runs.Inside(s.phase[q]);
  }

  lemma QuietStep(c: Codec, start: string, s: State, step: Step, s': State, base: string, tail: string)
    requires Inv(c, start, s, base, tail) && Next(c, s, step, s') && Runs.LockInv(s')
    requires step.LoseNewline? || (step.Plain? && Runs.Quiet(step.step))
    ensures Inv(c, start, s', base, tail)
  {
    var p := if step.Plain? then step.step.p else step.p;
    assert s'.text == s.text;
    assert forall q <- s'.phase :: q in s.phase && (q != p ==> s'.phase[q] == s.phase[q]);
  }

  lemma NextKeepsInv(c: Codec, start: string, s: State, step: Step, s': State, base: string, tail: string)
      returns (base': string, tail': string)
    requires c.Sound() && GlueFree(c) && Inv(c, start, s, base, tail) && Next(c, s, step, s')
    ensures Inv(c, start, s', base', tail')
  {
    NextKeepsLock(c, s, step, s');
    base', tail' := base, tail;
    match step {
      case Tear(p, n) =>
        WriterStep(c, start, s, p, n, s', base, tail);
        tail' := tail + c.write(s.phase[p].event)[..n];
      case LoseNewline(_) =>
        QuietStep(c, start, s, step, s', base, tail);
      case Plain(plain) =>
        if plain.WriteBody? {
          var line := c.write(s.phase[plain.p].event);
          assert SingleLine(line) && line[..|line|] == line;
          WriterStep(c, start, s, plain.p, |line|, s', base, tail);
          tail' := tail + line;
        } else if plain.WriteNewline? {
          NewlineStep(c, start, s, plain.p, s', base, tail);
          base', tail' := base + tail + "\n", [];
        } else {
          QuietStep(c, start, s, step, s', base, tail);
        }
    }
  }

  lemma {:induction false} RunKeepsInv(c: Codec, states: seq<State>, steps: seq<Step>, i: nat)
      returns (base: string, tail: string)
    requires c.Sound() && GlueFree(c) && Run(c, states, steps) && i < |states|
    ensures Inv(c, states[0].text, states[i], base, tail)
  {
    if i == 0 {
      base, tail := states[0].text, [];
      assert base + tail == base;
    } else {
      base, tail := RunKeepsInv(c, states, steps, i - 1);
      assert StepAt(c, states, steps, i - 1);
      base, tail := NextKeepsInv(c, states[0].text, states[i - 1], steps[i - 1], states[i], base, tail);
    }
  }

  lemma ShapeKeepsBreaks(c: Codec, start: string, text: string, base: string, tail: string)
    requires Shape(c, start, text, base, tail)
    ensures BreakSet(c, Lines(text)) == BreakSet(c, Lines(start)) && Lines(start) <= Lines(text)
  {
    assert text == start + text[|start|..];
    LinesConcat(start, text[|start|..]);
    if tail == [] {
      assert base + tail == base;
    } else {
      UnterminatedTail(base, tail);
      BreaksAfterLine(c, Lines(base), tail);
    }
  }

  /** Wherever processes die, in the middle of a line or before its newline, and however the others go on:
      no break is added, none is repaired, and every line of the original log stays. */
  lemma NoCrashBreaksTheChain(c: Codec, states: seq<State>, steps: seq<Step>, i: nat)
    requires c.Sound() && GlueFree(c) && Run(c, states, steps) && i < |states|
    ensures BreakSet(c, Lines(states[i].text)) == BreakSet(c, Lines(states[0].text))
    ensures Lines(states[0].text) <= Lines(states[i].text)
  {
    var base, tail := RunKeepsInv(c, states, steps, i);
    ShapeKeepsBreaks(c, states[0].text, states[i].text, base, tail);
  }
}
