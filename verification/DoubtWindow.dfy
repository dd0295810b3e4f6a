/** The doubt counter of one fact under any interleaving of retrievals and re-tests. */
module DoubtWindow {
  import opened InstallMode
  import opened Confidence

  const WINDOW: nat := 5
  const U32_MAX: nat := 0xFFFF_FFFF

  datatype DoubtState = Outside | Inside

  function SaturatingAdd(x: nat, y: nat): nat {
    if x + y < U32_MAX then x + y else U32_MAX
  }

  function ApplyRetrievalEvent(prior: nat, drifted: bool): (nat, DoubtState) {
    if !drifted then (0, Outside)
    else
      var count := SaturatingAdd(prior, 1);
      (count, if count >= WINDOW then Inside else Outside)
  }

  // The two payload fields the mechanism reads and writes.
  datatype FactDoubt = FactDoubt(count: nat, score: real)
  datatype Event = Retrieval(drifted: bool) | Retest(newScore: real)
  datatype Effect = Drifted | InContext | Promoted | Recovered | Kept {
    predicate IsReset() {
      this == InContext || this == Promoted || this == Recovered
    }

    predicate IsTransition() {
      this == Promoted || this == Recovered
    }
  }

  function EffectOf(s: FactDoubt, e: Event): Effect {
    match e
    case Retrieval(drifted) => if drifted then Drifted else InContext
    case Retest(newScore) =>
      match DecideTransition(s.score, newScore, s.count >= WINDOW)
      case PromoteToDoubt => Promoted
      case RecoverFromDoubt => Recovered
      case NoChange => Kept
  }

  function Step(s: FactDoubt, e: Event): FactDoubt {
    match e
    case Retrieval(drifted) => s.(count := ApplyRetrievalEvent(s.count, drifted).0)
    case Retest(newScore) =>
      FactDoubt(match DecideTransition(s.score, newScore, s.count >= WINDOW)
                case PromoteToDoubt => WINDOW
                case RecoverFromDoubt => 0
                case NoChange => s.count,
                newScore)
  }

  class StoredFact {
    var count: nat
    var score: real

    constructor (count: nat, score: real)
      ensures Doubt() == FactDoubt(count, score)
    {
      this.count, this.score := count, score;
    }

    function Doubt(): FactDoubt
      reads this
    {
      FactDoubt(count, score)
    }

    /** `apply_doubt_check_to_fact`: the counter is written only when it changes. */
    method ApplyDoubtCheck(drifted: bool) returns (state: DoubtState)
      modifies this
      ensures Doubt() == Step(old(Doubt()), Retrieval(drifted))
      ensures state == Inside <==> drifted && count >= 5
      ensures !drifted ==> count == 0
      ensures drifted ==> count == if old(count) < 0xFFFF_FFFF then old(count) + 1 else 0xFFFF_FFFF
    {
      var (newCount, s) := ApplyRetrievalEvent(count, drifted);
      if newCount != count {
        count := newCount;
      }
      state := s;
    }

    /** `retest_fact_step82`: recompute, decide, apply, and always write the score back. */
    method RetestFact(L: real -> real, inputs: Inputs, mode: Mode) returns (transition: Transition)
      modifies this
      ensures Doubt() == Step(old(Doubt()), Retest(ConfidenceScore(L, inputs, mode)))
      ensures transition == PromoteToDoubt <==> EffectOf(old(Doubt()), Retest(score)) == Promoted
      ensures transition == RecoverFromDoubt <==> EffectOf(old(Doubt()), Retest(score)) == Recovered
      ensures transition == PromoteToDoubt <==> old(count) < 5 && old(score) - score > 0.2 && score < 0.3
      ensures transition == RecoverFromDoubt <==> old(count) >= 5 && score - old(score) > 0.2
      ensures count == match transition case PromoteToDoubt => 5 case RecoverFromDoubt => 0 case NoChange => old(count)
    {
      var newScore := ConfidenceScore(L, inputs, mode);
      transition := DecideTransition(score, newScore, count >= WINDOW);
      match transition {
        case PromoteToDoubt => count := WINDOW;
        case RecoverFromDoubt => count := 0;
        case NoChange =>
      }
      score := newScore;
    }
  }

  // ----- runs -----

  function After(s: FactDoubt, events: seq<Event>): FactDoubt {
    if events == [] then s else Step(After(s, events[..|events| - 1]), events[|events| - 1])
  }

  function LastEffect(s: FactDoubt, events: seq<Event>): Effect
    requires events != []
  {
    EffectOf(After(s, events[..|events| - 1]), events[|events| - 1])
  }

  // How many events precede and include the last reset or promotion; 0 if there is none.
  function LastReset(s: FactDoubt, events: seq<Event>): (k: nat)
    ensures k <= |events|
  {
    if events == [] then 0
    else if LastEffect(s, events).IsReset() then |events|
    else LastReset(s, events[..|events| - 1])
  }

  function DriftedIn(events: seq<Event>): nat {
    if events == [] then 0
    else DriftedIn(events[..|events| - 1]) + (if events[|events| - 1] == Retrieval(true) then 1 else 0)
  }

  // What the counter was set to by the last reset: 5 by a promotion, 0 otherwise.
  function BaseAt(s: FactDoubt, events: seq<Event>, k: nat): nat
    requires k <= |events|
  {
    if k == 0 then s.count else if LastEffect(s, events[..k]) == Promoted then WINDOW else 0
  }

  lemma DriftedOneMore(events: seq<Event>, k: nat)
    requires k < |events|
    ensures DriftedIn(events[k..])
         == DriftedIn(events[..|events| - 1][k..]) + (if events[|events| - 1] == Retrieval(true) then 1 else 0)
  {
    assert events[k..][..|events[k..]| - 1] == events[..|events| - 1][k..];
  }

  /** The counter is the trailing run of drifted retrievals since the last reset or promotion, plus 5 if
      that was a promotion, saturating at the width of the stored integer. */
  lemma {:induction false} CounterIsTrailingRun(s: FactDoubt, events: seq<Event>)
    requires s.count <= U32_MAX
    ensures var k := LastReset(s, events);
            After(s, events).count == SaturatingAdd(BaseAt(s, events, k), DriftedIn(events[k..]))
  {
    var k := LastReset(s, events);
    if events != [] {
      if k == |events| {
        assert events[..k] == events && events[k..] == [];
      } else {
        var init := events[..|events| - 1];
        CounterIsTrailingRun(s, init);
        assert init[..k] == events[..k];
        DriftedOneMore(events, k);
      }
    }
  }

  /** Drifting alone: after `n` drifted retrievals in a row the counter of a fresh fact is `n`, up to the width of
      the stored integer, and the fact is in the window from the fifth on. */
  lemma {:induction false} FifthDriftEntersWindow(score: real, events: seq<Event>)
    requires forall i :: 0 <= i < |events| ==> events[i] == Retrieval(true)
    ensures var n, after := |events|, After(FactDoubt(0, score), events);
      && after.score == score && after.count == (if n < 0xFFFF_FFFF then n else 0xFFFF_FFFF)
      && (events != [] ==>
            var step := ApplyRetrievalEvent(After(FactDoubt(0, score), events[..n - 1]).count, true);
            step.0 == after.count && (step.1 == Inside <==> n >= 5))
  {
    if events != [] {
      FifthDriftEntersWindow(score, events[..|events| - 1]);
    }
  }

  // The last reset is one, and no event after it is.
  lemma {:induction false} LastResetIsLast(s: FactDoubt, events: seq<Event>, i: nat)
    requires i < |events|
    ensures var k := LastReset(s, events);
            && (i + 1 == k ==> LastEffect(s, events[..i + 1]).IsReset())
            && (i >= k ==> !LastEffect(s, events[..i + 1]).IsReset())
  {
    if i + 1 == |events| {
      assert events[..i + 1] == events;
    } else {
      var init := events[..|events| - 1];
      LastResetIsLast(s, init, i);
      assert init[..i + 1] == events[..i + 1];
    }
  }

  // The effect of event `i` of a run.
  function EffectAt(s: FactDoubt, events: seq<Event>, i: nat): Effect
    requires i < |events|
  {
    EffectOf(After(s, events[..i]), events[i])
  }

  lemma OneMoreEvent(s: FactDoubt, events: seq<Event>, i: nat)
    requires i < |events|
    ensures After(s, events[..i + 1]) == Step(After(s, events[..i]), events[i])
  {
    assert events[..i + 1][..i] == events[..i];
  }

  // Inside the window the counter stays at 5 or more until a retrieval in context or a recovery.
  lemma {:induction false} WindowHolds(s: FactDoubt, events: seq<Event>, i: nat, j: nat)
    requires i < j <= |events| && EffectAt(s, events, i) == Promoted
    requires forall k :: i < k < j ==> EffectAt(s, events, k) != InContext && EffectAt(s, events, k) != Recovered
    ensures WINDOW <= After(s, events[..j]).count
  {
    OneMoreEvent(s, events, j - 1);
    assert events[..j - 1 + 1] == events[..j];
    if i < j - 1 {
      WindowHolds(s, events, i, j - 1);
      assert EffectAt(s, events, j - 1) != InContext && EffectAt(s, events, j - 1) != Recovered;
    }
  }

  /** A fact is never promoted twice without a retrieval in context or a recovery in between. */
  lemma PromotionsAlternate(s: FactDoubt, events: seq<Event>, i: nat, j: nat)
    requires i < j < |events|
    requires EffectAt(s, events, i) == Promoted && EffectAt(s, events, j) == Promoted
    ensures exists k :: i < k < j && (EffectAt(s, events, k) == InContext || EffectAt(s, events, k) == Recovered)
  {
    if forall k :: i < k < j ==> EffectAt(s, events, k) != InContext && EffectAt(s, events, k) != Recovered {
      WindowHolds(s, events, i, j);
    }
  }

  // ----- hysteresis -----

  function Abs(x: real): real {
    if x < 0.0 then -x else x
  }

  function Transitions(s: FactDoubt, events: seq<Event>): nat {
    if events == [] then 0
    else Transitions(s, events[..|events| - 1]) + (if LastEffect(s, events).IsTransition() then 1 else 0)
  }

  // Total movement of the cached score.
  function Variation(s: FactDoubt, events: seq<Event>): real {
    if events == [] then 0.0
    else Variation(s, events[..|events| - 1]) + Abs(After(s, events).score - After(s, events[..|events| - 1]).score)
  }

  /** Every promotion or recovery is paid for: k of them need the score to have moved by more than 0.2 k. */
  lemma {:induction false} TransitionsCostVariation(s: FactDoubt, events: seq<Event>)
    ensures Variation(s, events) >= 0.2 * Transitions(s, events) as real
    ensures Transitions(s, events) > 0 ==> Variation(s, events) > 0.2 * Transitions(s, events) as real
  {
    if events != [] {
      TransitionsCostVariation(s, events[..|events| - 1]);
    }
  }

  /** The price is all but tight: a promotion and a recovery for a movement of 0.6. */
  lemma PromotionAndRecovery()
    ensures var events := [Retest(0.2), Retest(0.5)];
      && Transitions(FactDoubt(0, 0.5), events) == 2 && Variation(FactDoubt(0, 0.5), events) == 0.6
      && After(FactDoubt(0, 0.5), events) == FactDoubt(0, 0.5)
      && EffectAt(FactDoubt(0, 0.5), events, 0) == Promoted && EffectAt(FactDoubt(0, 0.5), events, 1) == Recovered
  {
    var s, a, b := FactDoubt(0, 0.5), Retest(0.2), Retest(0.5);
    assert [a, b][..1] == [a] && [a, b][..0] == [] && [a][..0] == [];
    assert After(s, [a]) == FactDoubt(5, 0.2) && Transitions(s, [a]) == 1 && Variation(s, [a]) == 0.3;
  }

  // Each re-test moves the score by at most 0.2.
  ghost predicate SmallSteps(s: FactDoubt, events: seq<Event>) {
    events != [] ==>
      var init := events[..|events| - 1];
      Abs(After(s, events).score - After(s, init).score) <= 0.2 && SmallSteps(s, init)
  }

  /** A score that climbs or falls in steps of at most 0.2 never changes the window by re-test, however
      far it goes: a doubted fact stays doubted until it is retrieved in context. */
  lemma {:induction false} SmallStepsNeverRecover(s: FactDoubt, events: seq<Event>)
    requires SmallSteps(s, events)
    ensures Transitions(s, events) == 0
    ensures WINDOW <= s.count <= U32_MAX && Retrieval(false) !in events ==> WINDOW <= After(s, events).count <= U32_MAX
  {
    if events != [] {
      var init := events[..|events| - 1];
      SmallStepsNeverRecover(s, init);
      assert events == init + [events[|events| - 1]];
    }
  }
}
