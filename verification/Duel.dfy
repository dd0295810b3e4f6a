/** The duel rule: entrenchment, weight of a new fact, outcome, choice of the opponent. */
module Duel {
  import opened Prelude
  import opened Logarithm
  import opened InstallMode

  const FLIP_RATIO := 1.5
  const CONTESTED_RATIO := 0.5
  const NORM_DIVISOR := 50.0
  const INHERITANCE_DISCOUNT := 0.5

  datatype EntrenchmentInputs = EntrenchmentInputs(dependants: nat, confirmations: nat, ageDays: nat)

  datatype NewFactInputs = NewFactInputs(
    fromLiveSession: bool, diverseConfirmations: nat, externalSignals: nat, typedScore: Option<real>)

  datatype Outcome = Flip | Contested | Quarantine

  function Months(ageDays: nat): real {
    var m := ageDays as real / 30.0;
    if m < 24.0 then m else 24.0
  }

  function Log1p(L: real -> real, n: nat): real {
    L(1.0 + n as real)
  }

  function Entrenchment(L: real -> real, x: EntrenchmentInputs): real {
    (Log1p(L, x.dependants) + Log1p(L, x.confirmations) + L(1.0 + Months(x.ageDays))) / NORM_DIVISOR
  }

  function RawWeight(L: real -> real, x: NewFactInputs, mode: Mode): real {
    var confTerm := Hundredths(mode.ConfirmationsWeight()) * Log1p(L, x.diverseConfirmations);
    var extTerm := match x.typedScore
      case Some(score) => Hundredths(mode.ExternalWeight()) * score
      case None => Hundredths(mode.ExternalWeight()) * Log1p(L, x.externalSignals);
    confTerm + extTerm
  }

  function WeightNew(L: real -> real, x: NewFactInputs, mode: Mode): real {
    if x.fromLiveSession then RawWeight(L, x, mode) else RawWeight(L, x, mode) * INHERITANCE_DISCOUNT
  }

  function ResolveDuel(entrenchment: real, weight: real): Outcome {
    if weight > entrenchment * FLIP_RATIO then Flip
    else if weight > entrenchment * CONTESTED_RATIO then Contested
    else Quarantine
  }

  function Judge(L: real -> real, held: EntrenchmentInputs, claim: NewFactInputs, mode: Mode): Outcome {
    ResolveDuel(Entrenchment(L, held), WeightNew(L, claim, mode))
  }

  // ----- the decision in whole numbers -----

  // Both sides of the comparison at multiplicity `k`: entrenchment cleared of its denominator 30,
  // and the powers that the slot weights put on the new fact's counts.
  function Resistance(x: EntrenchmentInputs): nat {
    (1 + x.dependants) * (1 + x.confirmations) * (30 + Min(x.ageDays, 720))
  }

  function Force(x: NewFactInputs, mode: Mode): nat {
    Power(1 + x.diverseConfirmations, mode.ConfirmationsWeight()) * Power(1 + x.externalSignals, mode.ExternalWeight())
  }

  // Halving the weight doubles the power of the other side.
  function Multiplicity(x: NewFactInputs): nat {
    if x.fromLiveSession then 1 else 2
  }

  lemma LogOfResistance(L: real -> real, x: EntrenchmentInputs)
    requires IsLog(L)
    ensures Resistance(x) > 0
    ensures L(Resistance(x) as real) == NORM_DIVISOR * Entrenchment(L, x) + L(30.0)
  {
    var m := Min(x.ageDays, 720);
    LogOfProduct(L, 1 + x.dependants, 1 + x.confirmations);
    LogOfProduct(L, (1 + x.dependants) * (1 + x.confirmations), 30 + m);
    assert Additive(L, 30.0, 1.0 + Months(x.ageDays));
    assert 30.0 * (1.0 + Months(x.ageDays)) == (30 + m) as real;
    assert (1 + x.dependants) as real == 1.0 + x.dependants as real;
    assert (1 + x.confirmations) as real == 1.0 + x.confirmations as real;
  }

  lemma LogOfForce(L: real -> real, x: NewFactInputs, mode: Mode)
    requires IsLog(L) && x.typedScore.None?
    ensures Force(x, mode) > 0 && L(Force(x, mode) as real) == 100.0 * RawWeight(L, x, mode)
  {
    var p := Power(1 + x.diverseConfirmations, mode.ConfirmationsWeight());
    var q := Power(1 + x.externalSignals, mode.ExternalWeight());
    LogOfPower(L, 1 + x.diverseConfirmations, mode.ConfirmationsWeight());
    LogOfPower(L, 1 + x.externalSignals, mode.ExternalWeight());
    LogOfProduct(L, p, q);
    assert (1 + x.diverseConfirmations) as real == 1.0 + x.diverseConfirmations as real;
    assert (1 + x.externalSignals) as real == 1.0 + x.externalSignals as real;
  }

  lemma LogOfLeft(L: real -> real, claim: NewFactInputs, mode: Mode, e: nat)
    requires IsLog(L) && claim.typedScore.None?
    ensures var lhs := Power(30, e) * Force(claim, mode);
      lhs > 0 && L(lhs as real) == e as real * L(30.0) + 100.0 * RawWeight(L, claim, mode)
  {
    var p, f := Power(30, e), Force(claim, mode);
    LogOfForce(L, claim, mode);
    LogOfPower(L, 30, e);
    LogOfProduct(L, p, f);
  }

  lemma LogOfRight(L: real -> real, held: EntrenchmentInputs, e: nat)
    requires IsLog(L)
    ensures var rhs := Power(Resistance(held), e);
      rhs > 0 && L(rhs as real) == e as real * (NORM_DIVISOR * Entrenchment(L, held) + L(30.0))
  {
    var r := Resistance(held);
    LogOfResistance(L, held);
    LogOfPower(L, r, e);
  }

  lemma SidesCompare(L: real -> real, held: EntrenchmentInputs, claim: NewFactInputs, mode: Mode, e: nat)
    requires IsLog(L) && claim.typedScore.None?
    ensures Power(30, e) * Force(claim, mode) > Power(Resistance(held), e)
       <==> e as real * L(30.0) + 100.0 * RawWeight(L, claim, mode)
            > e as real * (NORM_DIVISOR * Entrenchment(L, held) + L(30.0))
  {
    LogOfLeft(L, claim, mode, e);
    LogOfRight(L, held, e);
    LogComparesNumbers(L, Power(30, e) * Force(claim, mode), Power(Resistance(held), e));
  }

  lemma WeightByMultiplicity(L: real -> real, claim: NewFactInputs, mode: Mode)
    ensures WeightNew(L, claim, mode) == RawWeight(L, claim, mode) / Multiplicity(claim) as real
  {
  }

  // weight > n/2 * entrenchment, for n = 1 (contested) and n = 3 (flip).
  lemma HalvesTest(L: real -> real, held: EntrenchmentInputs, claim: NewFactInputs, mode: Mode, n: nat)
    requires IsLog(L) && claim.typedScore.None?
    ensures var e := n * Multiplicity(claim);
            2.0 * WeightNew(L, claim, mode) > n as real * Entrenchment(L, held)
            <==> Power(30, e) * Force(claim, mode) > Power(Resistance(held), e)
  {
    var k := Multiplicity(claim);
    SidesCompare(L, held, claim, mode, n * k);
    ClearDenominators(n, k, Entrenchment(L, held), RawWeight(L, claim, mode), L(30.0));
    WeightByMultiplicity(L, claim, mode);
  }

  lemma ClearDenominators(n: nat, k: nat, ent: real, raw: real, log30: real)
    requires k == 1 || k == 2
    ensures 2.0 * (raw / k as real) > n as real * ent
       <==> (n * k) as real * log30 + 100.0 * raw > (n * k) as real * (NORM_DIVISOR * ent + log30)
  {
    var e, r := (n * k) as real, n as real * ent;
    assert e * (NORM_DIVISOR * ent + log30) == NORM_DIVISOR * (e * ent) + e * log30;
    if k == 1 {
      assert e * ent == r;
    } else {
      assert e == 2.0 * n as real;
      assert e * ent == 2.0 * r;
    }
  }

  /** Without a typed score every verdict is a comparison of integer powers, in every install mode. */
  lemma VerdictInWholeNumbers(L: real -> real, held: EntrenchmentInputs, claim: NewFactInputs, mode: Mode)
    requires IsLog(L) && claim.typedScore.None?
    ensures var k := Multiplicity(claim);
      && (Judge(L, held, claim, mode) == Flip
          <==> Power(30, 3 * k) * Force(claim, mode) > Power(Resistance(held), 3 * k))
      && (Judge(L, held, claim, mode) != Quarantine
          <==> Power(30, k) * Force(claim, mode) > Power(Resistance(held), k))
  {
    HalvesTest(L, held, claim, mode, 3);
    HalvesTest(L, held, claim, mode, 1);
    LogOfResistance(L, held);
    EntrenchmentIsNonNegative(L, held);
  }

  lemma EntrenchmentIsNonNegative(L: real -> real, x: EntrenchmentInputs)
    requires IsLog(L)
    ensures Entrenchment(L, x) >= 0.0
  {
    LogIsNonNegative(L, 1.0 + x.dependants as real);
    LogIsNonNegative(L, 1.0 + x.confirmations as real);
    LogIsNonNegative(L, 1.0 + Months(x.ageDays));
  }

  /** The thresholds of each install mode written out, for a live claim and for an inherited one. */
  lemma VerdictByMode(L: real -> real, held: EntrenchmentInputs, claim: NewFactInputs, mode: Mode)
    requires IsLog(L) && claim.typedScore.None?
    ensures var (d, c, m) := (1 + held.dependants, 1 + held.confirmations, 30 + Min(held.ageDays, 720));
            var (conf, ext) := (1 + claim.diverseConfirmations, 1 + claim.externalSignals);
            var force := match mode
              case ChatOnly => Power(conf, 10) * Power(ext, 20)
              case DevWithCi => Power(conf, 15) * Power(ext, 35)
              case MultiTenant => Power(conf, 40) * Power(ext, 20);
            var verdict := Judge(L, held, claim, mode);
      && (claim.fromLiveSession ==>
            && (verdict == Flip <==> 27000 * force > Power(d * c * m, 3))
            && (verdict != Quarantine <==> 30 * force > d * c * m))
      && (!claim.fromLiveSession ==>
            && (verdict == Flip <==> 729000000 * force > Power(d * c * m, 6))
            && (verdict != Quarantine <==> 900 * force > Power(d * c * m, 2)))
  {
    VerdictInWholeNumbers(L, held, claim, mode);
    assert Power(30, 1) == 30 && Power(30, 2) == 900 && Power(30, 3) == 27000 && Power(30, 6) == 729000000;
    assert Power(Resistance(held), 1) == Resistance(held);
  }

  lemma StandingOfFact(L: real -> real, held: EntrenchmentInputs)
    ensures 50.0 * Entrenchment(L, held)
         == L(1.0 + held.dependants as real) + L(1.0 + held.confirmations as real)
            + L(1.0 + Min(held.ageDays, 720) as real / 30.0)
  {
    MonthsInDays(held.ageDays);
  }

  lemma ForceOfTypedClaim(L: real -> real, claim: NewFactInputs, mode: Mode, score: real)
    requires claim.typedScore == Some(score)
    ensures var conf := L(1.0 + claim.diverseConfirmations as real);
      100.0 * RawWeight(L, claim, mode) == match mode
        case ChatOnly => 10.0 * conf + 20.0 * score
        case DevWithCi => 15.0 * conf + 35.0 * score
        case MultiTenant => 40.0 * conf + 20.0 * score
  {
  }

  /** With a typed score, which takes the place of the signal count whatever that is: the verdict is a
      comparison of the weighted score and confirmations with the standing of the held fact. */
  lemma TypedVerdictByMode(
      L: real -> real, held: EntrenchmentInputs, claim: NewFactInputs, mode: Mode, score: real, signals: nat)
    requires IsLog(L) && claim.typedScore == Some(score)
    ensures var conf := L(1.0 + claim.diverseConfirmations as real);
            var force := match mode
              case ChatOnly => 10.0 * conf + 20.0 * score
              case DevWithCi => 15.0 * conf + 35.0 * score
              case MultiTenant => 40.0 * conf + 20.0 * score;
            var standing := L(1.0 + held.dependants as real) + L(1.0 + held.confirmations as real)
              + L(1.0 + Min(held.ageDays, 720) as real / 30.0);
            var k := if claim.fromLiveSession then 1.0 else 2.0;
            var verdict := Judge(L, held, claim, mode);
      && (verdict == Flip <==> force > 3.0 * k * standing)
      && (verdict != Quarantine <==> force > k * standing)
      && verdict == Judge(L, held, claim.(externalSignals := signals), mode)
  {
    EntrenchmentIsNonNegative(L, held);
    StandingOfFact(L, held);
    ForceOfTypedClaim(L, claim, mode, score);
    ForceOfTypedClaim(L, claim.(externalSignals := signals), mode, score);
  }

  lemma MonthsInDays(ageDays: nat)
    ensures Months(ageDays) == Min(ageDays, 720) as real / 30.0
  {
  }

  // ----- monotonicity -----

  // `x` is at least as hard to displace as `y`.
  predicate HarderThan(x: EntrenchmentInputs, y: EntrenchmentInputs) {
    x.dependants >= y.dependants && x.confirmations >= y.confirmations && x.ageDays >= y.ageDays
  }

  // `x` speaks at least as strongly as `y`.
  predicate StrongerThan(x: NewFactInputs, y: NewFactInputs) {
    && (y.fromLiveSession ==> x.fromLiveSession)
    && x.diverseConfirmations >= y.diverseConfirmations
    && match (x.typedScore, y.typedScore)
       case (Some(s), Some(t)) => s >= t
       case (None, None) => x.externalSignals >= y.externalSignals
       case _ => false
  }

  lemma EntrenchmentIsMonotone(L: real -> real, x: EntrenchmentInputs, y: EntrenchmentInputs)
    requires IsLog(L) && HarderThan(x, y)
    ensures Entrenchment(L, x) >= Entrenchment(L, y)
  {
    LogIsMonotone(L, 1.0 + y.dependants as real, 1.0 + x.dependants as real);
    LogIsMonotone(L, 1.0 + y.confirmations as real, 1.0 + x.confirmations as real);
    LogIsMonotone(L, 1.0 + Months(y.ageDays), 1.0 + Months(x.ageDays));
  }

  lemma RawWeightIsMonotone(L: real -> real, x: NewFactInputs, y: NewFactInputs, mode: Mode)
    requires IsLog(L) && StrongerThan(x, y)
    ensures RawWeight(L, x, mode) >= RawWeight(L, y, mode)
  {
    LogIsMonotone(L, 1.0 + y.diverseConfirmations as real, 1.0 + x.diverseConfirmations as real);
    if x.typedScore.None? {
      LogIsMonotone(L, 1.0 + y.externalSignals as real, 1.0 + x.externalSignals as real);
    }
  }

  /** In every input: more evidence for the claim, or less standing of the held fact, never worsens the
      verdict. Going from inherited to live never does either, even where a negative typed
      score makes the discounted weight the larger one. */
  lemma VerdictIsMonotone(
      L: real -> real, hard: EntrenchmentInputs, soft: EntrenchmentInputs,
      strong: NewFactInputs, weak: NewFactInputs, mode: Mode)
    requires IsLog(L) && HarderThan(hard, soft) && StrongerThan(strong, weak)
    ensures Judge(L, hard, weak, mode) == Flip ==> Judge(L, soft, strong, mode) == Flip
    ensures Judge(L, hard, weak, mode) != Quarantine ==> Judge(L, soft, strong, mode) != Quarantine
  {
    EntrenchmentIsMonotone(L, hard, soft);
    EntrenchmentIsNonNegative(L, soft);
    RawWeightIsMonotone(L, strong, weak, mode);
  }

  /** No fact is permanently entrenched: enough deterministic signals flip it, in every install mode,
      live or inherited, whatever its age. */
  lemma EveryFactCanBeFlipped(L: real -> real, held: EntrenchmentInputs, claim: NewFactInputs, mode: Mode)
    requires IsLog(L) && claim.typedScore.None?
    requires 1 + claim.externalSignals > 25 * ((1 + held.dependants) * (1 + held.confirmations))
    ensures Judge(L, held, claim, mode) == Flip
  {
    var d, c := 1 + held.dependants, 1 + held.confirmations;
    var bound := d * c * 25;
    LogOfProduct(L, d, c);
    LogOfProduct(L, d * c, 25);
    LogComparesNumbers(L, 1 + claim.externalSignals, bound);
    LogIsMonotone(L, 1.0 + Months(held.ageDays), 25.0);
    LogIsNonNegative(L, 1.0 + claim.diverseConfirmations as real);
    LogIsNonNegative(L, bound as real);
    EntrenchmentIsNonNegative(L, held);
    assert d as real == 1.0 + held.dependants as real && c as real == 1.0 + held.confirmations as real;
    assert (1 + claim.externalSignals) as real == 1.0 + claim.externalSignals as real;
    var ext := Log1p(L, claim.externalSignals);
    assert ext > L(bound as real) >= NORM_DIVISOR * Entrenchment(L, held);
    assert RawWeight(L, claim, mode) >= 0.2 * ext;
  }

  // ----- the opponent -----

  datatype Cardinality = Single | TemporalSingle | Multi {
    predicate AdmitsConflict() {
      this != Multi
    }
  }

  /** The duel against all facts on record for the axis. The opponent is the first most entrenched one, so
      the claim flips exactly when it would flip every fact, and is at least contested exactly when it would
      be against every fact. */
  method ResolveAgainstExisting(
      L: real -> real, existing: seq<(int, EntrenchmentInputs)>, claim: NewFactInputs,
      cardinality: Cardinality, mode: Mode)
      returns (outcome: Outcome, loser: Option<int>)
    requires IsLog(L)
    ensures cardinality == Multi || existing == [] ==> outcome == Contested && loser == None
    ensures (cardinality == Single || cardinality == TemporalSingle) && existing != [] ==>
      && (outcome == Flip <==> forall i :: 0 <= i < |existing| ==> Judge(L, existing[i].1, claim, mode) == Flip)
      && (loser.Some? <==> outcome == Flip)
      && (outcome != Quarantine <==>
            forall i :: 0 <= i < |existing| ==> Judge(L, existing[i].1, claim, mode) != Quarantine)
      && (loser.Some? ==> IsOpponent(L, existing, loser.value))
  {
    if !cardinality.AdmitsConflict() || existing == [] {
      return Contested, None;
    }
    var best: Option<(int, real)> := None;
    ghost var at := 0;
    var i := 0;
    while i < |existing|
      invariant 0 <= i <= |existing| && (i > 0 ==> at < i)
      invariant best.None? <==> i == 0
      invariant best.Some? ==> best.value == (existing[at].0, Entrenchment(L, existing[at].1))
      invariant forall k :: 0 <= k < i ==> Entrenchment(L, existing[k].1) <= Entrenchment(L, existing[at].1)
      invariant forall k :: 0 <= k < at < i ==> Entrenchment(L, existing[k].1) < Entrenchment(L, existing[at].1)
    {
      var score := Entrenchment(L, existing[i].1);
      if best.None? || best.value.1 < score {
        best := Some((existing[i].0, score));
        at := i;
      }
      i := i + 1;
    }
    assert FirstMostEntrenched(L, existing, at);
    outcome := ResolveDuel(best.value.1, WeightNew(L, claim, mode));
    assert outcome == Judge(L, existing[at].1, claim, mode);
    loser := if outcome == Flip then Some(best.value.0) else None;
    forall k | 0 <= k < |existing|
      ensures Entrenchment(L, existing[k].1) >= 0.0
    {
      EntrenchmentIsNonNegative(L, existing[k].1);
    }
  }

  ghost predicate IsOpponent(L: real -> real, existing: seq<(int, EntrenchmentInputs)>, id: int) {
    exists i :: 0 <= i < |existing| && FirstMostEntrenched(L, existing, i) && id == existing[i].0
  }

  ghost predicate FirstMostEntrenched(L: real -> real, existing: seq<(int, EntrenchmentInputs)>, i: nat)
    requires i < |existing|
  {
    && (forall k :: 0 <= k < |existing| ==> Entrenchment(L, existing[k].1) <= Entrenchment(L, existing[i].1))
    && (forall k :: 0 <= k < i ==> Entrenchment(L, existing[k].1) < Entrenchment(L, existing[i].1))
  }
}
