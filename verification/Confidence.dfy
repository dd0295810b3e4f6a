/** The confidence score and the re-test decision. */
module Confidence {
  import opened Prelude
  import opened Logarithm
  import opened InstallMode

  const INHERITANCE_PENALTY := 0.5
  const SCORE_SCALE := 5.0
  const DOWN_SHIFT := 0.2
  const UP_SHIFT := 0.2
  const PROMOTE_THRESHOLD := 0.3

  datatype Inputs = Inputs(
    dependants: nat, confirmations: nat, externalScore: Option<real>, legacyExternal: nat, inherited: bool)

  // log2(1 + n) is positive wherever it divides; the guard only makes the function total in `L`.
  function SaturatingNorm(L: real -> real, n: nat): real {
    var l := L(1.0 + n as real);
    if 1.0 + l == 0.0 then 0.0 else 1.0 - 1.0 / (1.0 + l)
  }

  function NormaliseSigned(score: real): real {
    var s := score / SCORE_SCALE;
    if s < -1.0 then -1.0 else if s > 1.0 then 1.0 else s
  }

  function ExternalNorm(L: real -> real, x: Inputs): real {
    match x.externalScore
    case Some(score) => NormaliseSigned(score)
    case None => SaturatingNorm(L, x.legacyExternal)
  }

  function ConfidenceScore(L: real -> real, x: Inputs, mode: Mode): real {
    Hundredths(mode.DependantsWeight()) * SaturatingNorm(L, x.dependants)
    + Hundredths(mode.ConfirmationsWeight()) * SaturatingNorm(L, x.confirmations)
    + Hundredths(mode.ExternalWeight()) * ExternalNorm(L, x)
    - (if x.inherited then INHERITANCE_PENALTY else 0.0)
  }

  lemma NormIsMonotoneBelowOne(L: real -> real, m: nat, n: nat)
    requires IsLog(L) && m <= n
    ensures 0.0 <= SaturatingNorm(L, m) <= SaturatingNorm(L, n) < 1.0
  {
    var x, y := 1.0 + L(1.0 + m as real), 1.0 + L(1.0 + n as real);
    LogIsNonNegative(L, 1.0 + m as real);
    LogIsMonotone(L, 1.0 + m as real, 1.0 + n as real);
    Reciprocals(x, y);
  }

  lemma Reciprocals(x: real, y: real)
    requires 1.0 <= x <= y
    ensures 0.0 < 1.0 / y <= 1.0 / x <= 1.0
  {
    var r := 1.0 / y;
    assert r * y == 1.0 && r > 0.0;
    assert r * x <= r * y;
    var s := 1.0 / x;
    assert s * x == 1.0 && s > 0.0;
    assert s <= s * x;
    assert (s - r) * x >= 0.0;
  }

  /** The score lies in [-w_external - penalty, 1), and rises with every signal. The confirmations slot
      counts towards the upper end. */
  lemma ScoreIsBoundedAndMonotone(L: real -> real, lo: Inputs, hi: Inputs, mode: Mode)
    requires IsLog(L)
    requires lo.dependants <= hi.dependants && lo.confirmations <= hi.confirmations
    requires match (lo.externalScore, hi.externalScore)
             case (Some(s), Some(t)) => s <= t
             case (None, None) => lo.legacyExternal <= hi.legacyExternal
             case _ => false
    requires hi.inherited ==> lo.inherited
    ensures -Hundredths(mode.ExternalWeight()) - INHERITANCE_PENALTY <= ConfidenceScore(L, lo, mode)
    ensures ConfidenceScore(L, lo, mode) <= ConfidenceScore(L, hi, mode)
    ensures ConfidenceScore(L, hi, mode) < 1.0
  {
    NormIsMonotoneBelowOne(L, lo.dependants, hi.dependants);
    NormIsMonotoneBelowOne(L, lo.confirmations, hi.confirmations);
    if lo.externalScore.None? {
      NormIsMonotoneBelowOne(L, lo.legacyExternal, hi.legacyExternal);
    }
    assert -1.0 <= ExternalNorm(L, lo) <= ExternalNorm(L, hi) <= 1.0;
  }

  /** The documented sample points of the curve: 1 - 1/(1 + log2(1 + n)) at n = 2^k - 1 is k/(k + 1). */
  lemma NormAtPowersOfTwo(L: real -> real, k: nat)
    requires IsLog(L) && L(2.0) == 1.0
    ensures Power(2, k) >= 1
    ensures SaturatingNorm(L, Power(2, k) - 1) == k as real / (k + 1) as real
  {
    LogOfPower(L, 2, k);
    assert 1.0 + (Power(2, k) - 1) as real == Power(2, k) as real;
    assert 1.0 + L(Power(2, k) as real) == (k + 1) as real;
    assert 1.0 - 1.0 / (k + 1) as real == k as real / (k + 1) as real;
  }

  /** What each slot alone contributes, and the price of inheritance: the anchors of the blend. */
  lemma ScoreAtAnchors(L: real -> real, mode: Mode, k: nat, score: real)
    requires IsLog(L) && L(2.0) == 1.0
    ensures Power(2, k) >= 1
    ensures mode.DependantsWeight() + mode.ConfirmationsWeight() + mode.ExternalWeight() == 100
    ensures var n, share := Power(2, k) - 1, k as real / (k + 1) as real;
      && ConfidenceScore(L, Inputs(n, 0, None, 0, false), mode) == Hundredths(mode.DependantsWeight()) * share
      && ConfidenceScore(L, Inputs(0, n, None, 0, false), mode) == Hundredths(mode.ConfirmationsWeight()) * share
      && ConfidenceScore(L, Inputs(0, 0, None, n, false), mode) == Hundredths(mode.ExternalWeight()) * share
    ensures var s := if score <= -5.0 then -1.0 else if score >= 5.0 then 1.0 else score / 5.0;
      ConfidenceScore(L, Inputs(0, 0, Some(score), 7, false), mode) == Hundredths(mode.ExternalWeight()) * s
    ensures forall x: Inputs :: x.inherited ==>
      ConfidenceScore(L, x, mode) == ConfidenceScore(L, x.(inherited := false), mode) - 0.5
  {
    NormAtPowersOfTwo(L, k);
    NormAtZero(L);
    TypedScoreAlone(L, mode, score);
  }

  /** The install modes at one signal of a kind, in hundredths: half the slot's weight. */
  lemma OneSignalByMode(L: real -> real, mode: Mode)
    requires IsLog(L) && L(2.0) == 1.0
    ensures ConfidenceScore(L, Inputs(1, 0, None, 0, false), mode)
         == match mode case ChatOnly => 0.35 case DevWithCi => 0.25 case MultiTenant => 0.2
    ensures ConfidenceScore(L, Inputs(0, 1, None, 0, false), mode)
         == match mode case ChatOnly => 0.05 case DevWithCi => 0.075 case MultiTenant => 0.2
    ensures ConfidenceScore(L, Inputs(0, 0, None, 1, false), mode)
         == match mode case ChatOnly => 0.1 case DevWithCi => 0.175 case MultiTenant => 0.1
    ensures ConfidenceScore(L, Inputs(0, 0, None, 0, true), mode) == -0.5
  {
    NormAtPowersOfTwo(L, 1);
    NormAtZero(L);
    assert Power(2, 1) == 2;
  }

  lemma NormAtZero(L: real -> real)
    requires IsLog(L)
    ensures SaturatingNorm(L, 0) == 0.0
  {
    LogOfOne(L);
  }

  lemma TypedScoreAlone(L: real -> real, mode: Mode, score: real)
    requires IsLog(L)
    ensures var s := if score <= -5.0 then -1.0 else if score >= 5.0 then 1.0 else score / 5.0;
      ConfidenceScore(L, Inputs(0, 0, Some(score), 7, false), mode) == Hundredths(mode.ExternalWeight()) * s
  {
    NormAtZero(L);
  }

  // The upper end of the range documented for the score: the confirmations slot is missing from it.
  ghost predicate WithinDocumentedMaximum(L: real -> real, x: Inputs, mode: Mode) {
    ConfidenceScore(L, x, mode) <= Hundredths(mode.DependantsWeight()) + Hundredths(mode.ExternalWeight())
  }

  lemma UnconfirmedIsWithin(L: real -> real, x: Inputs, mode: Mode)
    requires IsLog(L) && x.confirmations == 0
    ensures WithinDocumentedMaximum(L, x, mode)
  {
    LogOfOne(L);
    NormIsMonotoneBelowOne(L, 0, x.dependants);
    NormIsMonotoneBelowOne(L, 0, x.legacyExternal);
    assert SaturatingNorm(L, 0) == 0.0 && ExternalNorm(L, x) <= 1.0;
  }

  lemma ConfirmedExceeds(L: real -> real, x: Inputs, mode: Mode)
    requires IsLog(L) && L(2.0) == 1.0 && x.confirmations > 0
    requires x.dependants == Power(2, 31) - 1 && x.externalScore == Some(5.0) && !x.inherited
    ensures !WithinDocumentedMaximum(L, x, mode)
  {
    NormAtPowersOfTwo(L, 31);
    NormAtPowersOfTwo(L, 1);
    NormIsMonotoneBelowOne(L, 1, x.confirmations);
    assert SaturatingNorm(L, x.dependants) == 31.0 / 32.0;
    assert SaturatingNorm(L, x.confirmations) >= 0.5;
    assert ExternalNorm(L, x) == 1.0;
  }

  /** The documented maximum w_dependants + w_external holds for facts without confirmations and for no
      others: a single confirmation exceeds it on a fact with 2^31 - 1 dependants and a score of 5. */
  lemma DocumentedMaximumIffUnconfirmed(L: real -> real, confirmations: nat, mode: Mode)
    requires IsLog(L) && L(2.0) == 1.0
    ensures (forall x: Inputs :: x.confirmations == confirmations ==> WithinDocumentedMaximum(L, x, mode))
       <==> confirmations == 0
  {
    if confirmations == 0 {
      forall x: Inputs | x.confirmations == confirmations
        ensures WithinDocumentedMaximum(L, x, mode)
      {
        UnconfirmedIsWithin(L, x, mode);
      }
    } else {
      NormAtPowersOfTwo(L, 31);
      var x := Inputs(Power(2, 31) - 1, confirmations, Some(5.0), 0, false);
      ConfirmedExceeds(L, x, mode);
    }
  }

  datatype Transition = RecoverFromDoubt | PromoteToDoubt | NoChange

  /** Two reasons must agree before a fact enters the window, and only a doubted fact can recover. */
  function DecideTransition(oldScore: real, newScore: real, inDoubt: bool): (t: Transition)
    ensures t == PromoteToDoubt <==> !inDoubt && oldScore - newScore > 0.2 && newScore < 0.3
    ensures t == RecoverFromDoubt <==> inDoubt && newScore - oldScore > 0.2
  {
    var delta := newScore - oldScore;
    if delta < -DOWN_SHIFT && newScore < PROMOTE_THRESHOLD then
      (if inDoubt then NoChange else PromoteToDoubt)
    else if inDoubt && delta > UP_SHIFT then RecoverFromDoubt
    else NoChange
  }
}
