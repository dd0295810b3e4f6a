/** The background re-test loop: flag registry, candidate selection, one tick, its cadence, the busy guard. */
module RetestLoop {
  import opened Prelude
  import opened Sorting

  // A fact id, by its rank in the byte order of id strings.
  type Id = int

  const PER_TICK_CAP: nat := 50
  const CADENCE_DEFAULT: nat := 3600
  const CADENCE_MIN: nat := 300
  const CADENCE_MAX: nat := 86400
  const U64_MAX: nat := 0xFFFF_FFFF_FFFF_FFFF

  // ----- cadence -----

  function CadenceNext(previous: nat, edits: nat): nat {
    if edits == 0 then Min(Min(2 * previous, U64_MAX), CADENCE_MAX)
    else if edits >= 20 then Max(previous / 2, CADENCE_MIN)
    else Max(CADENCE_MIN, Min(previous, CADENCE_MAX))
  }

  // The bounds documented for the function.
  predicate InBounds(cadence: nat) {
    CADENCE_MIN <= cadence <= CADENCE_MAX
  }

  /** The documented bounds hold exactly when a quiet pass does not start below 150 s and a busy one not
      above 172801 s; the moderate branch always meets them. */
  lemma CadenceBoundsExactly(previous: nat, edits: nat)
    ensures InBounds(CadenceNext(previous, edits)) <==>
      (edits == 0 ==> 150 <= previous) && (edits >= 20 ==> previous <= 172801)
  {
    HalfExceeds(previous);
  }

  lemma HalfExceeds(n: nat)
    ensures n / 2 <= CADENCE_MAX <==> n <= 172801
  {
  }

  /** A loop started at one second never leaves the range below the floor while the graph stays quiet
      for the next pass. */
  lemma ShortCadenceEscapesTheFloor()
    ensures !InBounds(CadenceNext(1, 0))
  {
    CadenceBoundsExactly(1, 0);
  }

  /** Within the bounds the cadence reacts to the graph and to nothing else: a moderate pass holds it, a quiet
      one doubles it up to a day, and a busy one after a quiet one takes the doubling back. */
  lemma CadenceFollowsTheGraph(previous: nat, edits: nat)
    requires 300 <= previous <= 86400
    ensures 0 < edits < 20 ==> CadenceNext(previous, edits) == previous
    ensures previous <= 43200 && edits >= 20 ==> CadenceNext(CadenceNext(previous, 0), edits) == previous
    ensures previous <= 43200 ==> CadenceNext(previous, 0) == 2 * previous
    ensures previous > 43200 ==> CadenceNext(previous, 0) == 86400
    ensures previous < 600 && edits >= 20 ==> CadenceNext(previous, edits) == 300
  {
  }

  // What the loop sleeps for after a pass: the load multiplier (1 or 2) comes after the bounds.
  function SleepAfter(previous: nat, edits: nat, overloaded: bool): nat {
    CadenceNext(previous, edits) * (if overloaded then 2 else 1)
  }

  // The starts from which the next sleep lies within the documented bounds.
  predicate SleepInBounds(previous: nat, edits: nat, overloaded: bool) {
    if !overloaded then (edits == 0 ==> 150 <= previous) && (edits >= 20 ==> previous <= 172801)
    else if edits == 0 then 75 <= previous <= 21600
    else if edits >= 20 then previous <= 86401
    else previous <= 43200
  }

  /** When the sleep after a pass, load multiplier included, lies between five minutes and a day. */
  lemma SleepBoundsExactly(previous: nat, edits: nat, overloaded: bool)
    ensures InBounds(SleepAfter(previous, edits, overloaded)) <==> SleepInBounds(previous, edits, overloaded)
  {
    HalfExceeds(previous);
    if overloaded && edits >= 20 {
      assert previous / 2 <= 43200 <==> previous <= 86401;
    }
  }

  /** A quiet pass under load at the daily cap sleeps for two days. */
  lemma LoadExceedsTheCap()
    ensures SleepAfter(CADENCE_MAX, 0, true) == 2 * CADENCE_MAX && !InBounds(SleepAfter(CADENCE_MAX, 0, true))
  {
    SleepBoundsExactly(CADENCE_MAX, 0, true);
  }

  function SleepsAfter(start: nat, passes: seq<(nat, bool)>): nat {
    if passes == [] then start
    else
      var last := passes[|passes| - 1];
      SleepAfter(SleepsAfter(start, passes[..|passes| - 1]), last.0, last.1)
  }

  /** From any start within bounds the loop never sleeps less than five minutes nor more than two days; which
      passes leave it within the daily cap is decided by the sleep before, the edits and the load. */
  lemma {:induction false} LoopCadenceStaysBounded(start: nat, passes: seq<(nat, bool)>)
    requires InBounds(start)
    ensures CADENCE_MIN <= SleepsAfter(start, passes) <= 2 * CADENCE_MAX
    ensures passes != [] ==>
      var before, last := SleepsAfter(start, passes[..|passes| - 1]), passes[|passes| - 1];
      && (InBounds(SleepsAfter(start, passes)) <==> SleepInBounds(before, last.0, last.1))
      && (!last.1 ==> InBounds(SleepsAfter(start, passes)))
  {
    if passes != [] {
      var before, last := SleepsAfter(start, passes[..|passes| - 1]), passes[|passes| - 1];
      LoopCadenceStaysBounded(start, passes[..|passes| - 1]);
      SleepBoundsExactly(before, last.0, last.1);
      CadenceBoundsExactly(before, last.0);
    }
  }

  // ----- the registry and one tick -----

  // What one pass did: the candidates, how many of them came from the flag registry, how many were reached.
  datatype Pass = Pass(candidates: seq<Id>, drained: nat, reached: nat)

  predicate Below(x: Id, y: Id) {
    x <= y
  }

  // The drained flags come first and are the smallest; then the listed facts in their order, up to the cap.
  ghost predicate Prioritised(out: seq<Id>, drained: nat, cap: nat, top: Option<seq<Id>>, rest: set<Id>) {
    && drained <= |out| && drained <= cap
    && Increasing(out[..drained]) && (forall x <- out[..drained], y <- rest :: x < y)
    && out == out[..drained] + (if top.None? then [] else
         NotYet(out[..drained], top.value)[..Min(cap - drained, |NotYet(out[..drained], top.value)|)])
  }

  class Registry {
    var flagged: set<Id>
    var edits: nat
    var cadence: nat

    constructor ()
      ensures flagged == {} && edits == 0 && cadence == 3600
    {
      flagged, edits, cadence := {}, 0, CADENCE_DEFAULT;
    }

    method Flag(id: Id)
      modifies this`flagged
      ensures flagged == old(flagged) + {id}
    {
      flagged := flagged + {id};
    }

    method ClearFlag(id: Id)
      modifies this`flagged
      ensures flagged == old(flagged) - {id}
    {
      flagged := flagged - {id};
    }

    method RecordEdit()
      modifies this`edits
      ensures edits == old(edits) + 1
    {
      edits := edits + 1;
    }

    method TakeEditCount() returns (count: nat)
      modifies this`edits
      ensures count == old(edits) && edits == 0
    {
      count := edits;
      edits := 0;
    }

    /** The `max` smallest flagged ids, in order; whatever order the set iterates in, the same ones. */
    method DrainFlags(max: nat) returns (out: seq<Id>)
      modifies this`flagged
      ensures Increasing(out) && |out| == Min(max, |old(flagged)|)
      ensures Elems(out) <= old(flagged) && flagged == old(flagged) - Elems(out)
      ensures forall x <- out, y <- flagged :: x < y
      ensures |out| < max ==> flagged == {}
    {
      if max == 0 {
        out := [];
        return;
      }
      ghost var before := flagged;
      var listed := ListSet(flagged);
      var all := SortIds(listed);
      DistinctSize(listed);
      out := all[..Min(max, |all|)];
      Remove(out);
      SmallestFirst(before, all, |out|);
    }

    method Remove(ids: seq<Id>)
      modifies this`flagged
      ensures flagged == old(flagged) - Elems(ids)
    {
      var i := 0;
      while i < |ids|
        invariant 0 <= i <= |ids|
        invariant flagged == old(flagged) - Elems(ids[..i])
      {
        assert ids[..i + 1] == ids[..i] + [ids[i]];
        flagged := flagged - {ids[i]};
        i := i + 1;
      }
      assert ids[..i] == ids;
    }

    /** Flagged ids first, then the store's most depended-on facts. `top` is that list, or None when the
        store cannot be reached; it never repeats an id. */
    method SelectCandidates(cap: nat, top: Option<seq<Id>>) returns (out: seq<Id>, drained: nat)
      requires top.Some? ==> Distinct(top.value)
      modifies this`flagged
      ensures |out| <= cap && drained <= |out| && Distinct(out)
      ensures Elems(out[..drained]) <= old(flagged) && flagged == old(flagged) - Elems(out[..drained])
      ensures drained == Min(cap, |old(flagged)|)
      ensures Elems(out[drained..]) !! old(flagged)
      ensures |out| < cap && top.Some? ==> Elems(top.value) <= Elems(out)
      ensures Prioritised(out, drained, cap, top, flagged)
    {
      out := DrainFlags(cap);
      drained := |out|;
      assert out[..drained] == out && out[drained..] == [];
      IncreasingIsDistinct(out);
      if |out| >= cap || top.None? {
        return;
      }
      assert forall x <- old(flagged) :: x in old(flagged) - Elems(out) || x in Elems(out);
      assert Elems(out) == old(flagged);
      out := TopUp(out, top.value, cap);
    }

    /** One tick with no concurrent flagging. `busyAtWake` and `busy(i)` are the busy readings on waking and
        before candidate `i`; `ok(i)` says whether the re-test of candidate `i` succeeds. */
    method Tick(top: Option<seq<Id>>, busyAtWake: bool, busy: nat -> bool, ok: nat -> bool, overloaded: bool)
        returns (pass: Option<Pass>, processed: nat)
      requires top.Some? ==> Distinct(top.value)
      modifies this
      ensures pass.None? <==> busyAtWake
      ensures pass.None? ==> flagged == old(flagged) && edits == old(edits) && cadence == old(cadence) && processed == 0
      ensures pass.Some? ==>
        && edits == 0 && cadence == SleepAfter(old(cadence), old(edits), overloaded)
        && TickRan(old(flagged), pass.value, busy, ok, flagged)
        && processed == |Tested(pass.value.candidates, ok, pass.value.reached, true)| <= 50
        && pass.value.drained == Min(50, |old(flagged)|) && |pass.value.candidates| <= 50
    {
      if busyAtWake {
        return None, 0;
      }
      var count := TakeEditCount();
      cadence := CadenceNext(cadence, count);
      cadence := cadence * (if overloaded then 2 else 1);
      var ran;
      ran, processed := RunPass(top, busy, ok);
      pass := Some(ran);
    }

    // The part of a tick that touches the flags: select, then re-test.
    method RunPass(top: Option<seq<Id>>, busy: nat -> bool, ok: nat -> bool) returns (pass: Pass, processed: nat)
      requires top.Some? ==> Distinct(top.value)
      modifies this`flagged
      ensures TickRan(old(flagged), pass, busy, ok, flagged)
      ensures processed == |Tested(pass.candidates, ok, pass.reached, true)| <= PER_TICK_CAP
    {
      var candidates, drained := SelectCandidates(PER_TICK_CAP, top);
      var reached;
      reached, processed := RetestAll(candidates, busy, ok);
      pass := Pass(candidates, drained, reached);
    }

    // Busy is read again before every candidate; success clears its flag, failure sets it.
    method RetestAll(candidates: seq<Id>, busy: nat -> bool, ok: nat -> bool) returns (i: nat, processed: nat)
      requires Distinct(candidates)
      modifies this`flagged
      ensures i <= |candidates| && (forall j :: 0 <= j < i ==> !busy(j)) && (i < |candidates| ==> busy(i))
      ensures flagged == old(flagged) - Tested(candidates, ok, i, true) + Tested(candidates, ok, i, false)
      ensures processed == |Tested(candidates, ok, i, true)| <= i
    {
      ghost var before := flagged;
      i, processed := 0, 0;
      while i < |candidates|
        invariant 0 <= i <= |candidates|
        invariant forall j :: 0 <= j < i ==> !busy(j)
        invariant flagged == FlagsAfter(before, candidates, ok, i) && processed == Successes(ok, i)
      {
        if busy(i) {
          break;
        }
        if ok(i) {
          ClearFlag(candidates[i]);
          processed := processed + 1;
        } else {
          Flag(candidates[i]);
        }
        i := i + 1;
      }
      FlagsAfterRetests(before, candidates, ok, i);
      SuccessesAreCountedOnce(candidates, ok, i);
    }
  }

  ghost function FlagsAfter(flags: set<Id>, candidates: seq<Id>, ok: nat -> bool, n: nat): set<Id>
    requires n <= |candidates|
  {
    if n == 0 then flags
    else if ok(n - 1) then FlagsAfter(flags, candidates, ok, n - 1) - {candidates[n - 1]}
    else FlagsAfter(flags, candidates, ok, n - 1) + {candidates[n - 1]}
  }

  ghost function Successes(ok: nat -> bool, n: nat): (count: nat)
    ensures count <= n
  {
    if n == 0 then 0 else Successes(ok, n - 1) + (if ok(n - 1) then 1 else 0)
  }

  lemma {:induction false} FlagsAfterRetests(flags: set<Id>, candidates: seq<Id>, ok: nat -> bool, n: nat)
    requires n <= |candidates| && Distinct(candidates)
    ensures FlagsAfter(flags, candidates, ok, n)
         == flags - Tested(candidates, ok, n, true) + Tested(candidates, ok, n, false)
  {
    if n > 0 {
      var good, bad, id := Tested(candidates, ok, n - 1, true), Tested(candidates, ok, n - 1, false), candidates[n - 1];
      FlagsAfterRetests(flags, candidates, ok, n - 1);
      NotTestedBefore(candidates, ok, n - 1, true);
      NotTestedBefore(candidates, ok, n - 1, false);
      ClearOrFlagOne(flags, good, bad, id);
      if ok(n - 1) {
        assert Tested(candidates, ok, n, false) == bad && Tested(candidates, ok, n, true) == good + {id};
      } else {
        assert Tested(candidates, ok, n, true) == good && Tested(candidates, ok, n, false) == bad + {id};
      }
    }
  }

  lemma {:induction false} SuccessesAreCountedOnce(candidates: seq<Id>, ok: nat -> bool, n: nat)
    requires n <= |candidates| && Distinct(candidates)
    ensures |Tested(candidates, ok, n, true)| == Successes(ok, n)
  {
    if n > 0 {
      SuccessesAreCountedOnce(candidates, ok, n - 1);
      NotTestedBefore(candidates, ok, n - 1, true);
      OneMoreTested(candidates, ok, n - 1);
    }
  }

  lemma OneMoreTested(candidates: seq<Id>, ok: nat -> bool, n: nat)
    requires n < |candidates| && candidates[n] !in Tested(candidates, ok, n, true)
    ensures |Tested(candidates, ok, n + 1, true)| == |Tested(candidates, ok, n, true)| + (if ok(n) then 1 else 0)
  {
  }

  lemma NotTestedBefore(candidates: seq<Id>, ok: nat -> bool, n: nat, wanted: bool)
    requires n < |candidates| && Distinct(candidates)
    ensures candidates[n] !in Tested(candidates, ok, n, wanted)
  {
    TestedMembers(candidates, ok, n, wanted, candidates[n]);
  }

  lemma ClearOrFlagOne(flags: set<Id>, good: set<Id>, bad: set<Id>, id: Id)
    requires id !in good && id !in bad
    ensures (flags - good + bad) - {id} == flags - (good + {id}) + bad
    ensures (flags - good + bad) + {id} == flags - good + (bad + {id})
  {
  }

  // How one uninterrupted or interrupted tick leaves the flags.
  ghost predicate TickRan(before: set<Id>, p: Pass, busy: nat -> bool, ok: nat -> bool, after: set<Id>) {
    && p.drained == Min(PER_TICK_CAP, |before|) <= |p.candidates| <= PER_TICK_CAP && Distinct(p.candidates)
    && Elems(p.candidates[..p.drained]) <= before && Elems(p.candidates[p.drained..]) !! before
    && p.reached <= |p.candidates|
    && (forall j :: 0 <= j < p.reached ==> !busy(j))
    && (p.reached < |p.candidates| ==> busy(p.reached))
    && after == before - Elems(p.candidates[..p.drained]) - Tested(p.candidates, ok, p.reached, true)
                + Tested(p.candidates, ok, p.reached, false)
  }

  // The flags that were set before the tick, were not re-tested successfully, and are not set after it.
  ghost function LostFlags(before: set<Id>, p: Pass, ok: nat -> bool, after: set<Id>): set<Id>
    requires p.reached <= |p.candidates|
  {
    before - after - Tested(p.candidates, ok, p.reached, true)
  }

  lemma LostWasUnreached(before: set<Id>, p: Pass, busy: nat -> bool, ok: nat -> bool, after: set<Id>, x: Id)
    requires TickRan(before, p, busy, ok, after) && x in LostFlags(before, p, ok, after)
    ensures x in p.candidates[Min(p.reached, p.drained)..p.drained]
  {
    var m := Min(p.reached, p.drained);
    assert x in Elems(p.candidates[..p.drained]);
    var k :| 0 <= k < p.drained && p.candidates[k] == x;
    TestedMembers(p.candidates, ok, p.reached, true, x);
    TestedMembers(p.candidates, ok, p.reached, false, x);
    assert k >= p.reached;
    assert p.candidates[m..p.drained][k - m] == x;
  }

  lemma UnreachedIsLost(before: set<Id>, p: Pass, busy: nat -> bool, ok: nat -> bool, after: set<Id>, k: nat)
    requires TickRan(before, p, busy, ok, after) && p.reached <= k < p.drained
    ensures p.candidates[k] in LostFlags(before, p, ok, after)
  {
    var x := p.candidates[k];
    assert p.candidates[..p.drained][k] == x;
    TestedMembers(p.candidates, ok, p.reached, true, x);
    TestedMembers(p.candidates, ok, p.reached, false, x);
  }

  lemma SliceSize(s: seq<Id>, m: nat, n: nat)
    requires Distinct(s) && m <= n <= |s|
    ensures |Elems(s[m..n])| == n - m
  {
    DistinctSize(s[m..n]);
  }

  /** Which flags a tick loses: exactly the drained candidates it did not reach. Everything else that was
      flagged before is re-tested successfully or flagged afterwards; so nothing is lost unless the tick
      breaks off before the end of the drained part. */
  lemma LostFlagsAreTheUnreachedDrained(
      before: set<Id>, p: Pass, busy: nat -> bool, ok: nat -> bool, after: set<Id>)
    requires TickRan(before, p, busy, ok, after)
    ensures var lost := LostFlags(before, p, ok, after);
      && lost == Elems(p.candidates[Min(p.reached, p.drained)..p.drained])
      && |lost| == p.drained - Min(p.reached, p.drained)
      && (lost == {} <==> p.drained <= p.reached)
  {
    var lost, m := LostFlags(before, p, ok, after), Min(p.reached, p.drained);
    var unreached := p.candidates[m..p.drained];
    forall x
      ensures x in lost <==> x in Elems(unreached)
    {
      if x in lost {
        LostWasUnreached(before, p, busy, ok, after, x);
      }
      if x in unreached {
        var k :| 0 <= k < |unreached| && unreached[k] == x;
        UnreachedIsLost(before, p, busy, ok, after, m + k);
      }
    }
    SliceSize(p.candidates, m, p.drained);
  }

  // The candidates reached before `hi` whose re-test outcome was `wanted`.
  ghost function Tested(candidates: seq<Id>, ok: nat -> bool, hi: nat, wanted: bool): set<Id>
    requires hi <= |candidates|
  {
    if hi == 0 then {}
    else if ok(hi - 1) == wanted then Tested(candidates, ok, hi - 1, wanted) + {candidates[hi - 1]}
    else Tested(candidates, ok, hi - 1, wanted)
  }

  lemma {:induction false} TestedMembers(candidates: seq<Id>, ok: nat -> bool, hi: nat, wanted: bool, x: Id)
    requires hi <= |candidates|
    ensures x in Tested(candidates, ok, hi, wanted) <==> exists k: nat :: k < hi && ok(k) == wanted && candidates[k] == x
  {
    if hi > 0 {
      TestedMembers(candidates, ok, hi - 1, wanted, x);
      if ok(hi - 1) == wanted && candidates[hi - 1] == x {
        assert hi - 1 < hi;
      }
    }
  }

  // The listed facts that are not among the first ones, in the order of the list.
  function NotYet(first: seq<Id>, top: seq<Id>): seq<Id> {
    if top == [] then []
    else NotYet(first, top[..|top| - 1]) + (if top[|top| - 1] in first then [] else [top[|top| - 1]])
  }

  lemma {:induction false} NotYetMembers(first: seq<Id>, top: seq<Id>)
    ensures forall x :: x in NotYet(first, top) <==> x in top && x !in first
    ensures Distinct(top) ==> Distinct(NotYet(first, top))
  {
    if top != [] {
      assert top == top[..|top| - 1] + [top[|top| - 1]];
      NotYetMembers(first, top[..|top| - 1]);
    }
  }

  lemma {:induction false} NotYetGrows(first: seq<Id>, top: seq<Id>, n: nat)
    requires n <= |top|
    ensures NotYet(first, top[..n]) <= NotYet(first, top)
  {
    if n == |top| {
      assert top[..n] == top;
    } else {
      assert top[..|top| - 1][..n] == top[..n];
      NotYetGrows(first, top[..|top| - 1], n);
    }
  }

  // What the candidates are once `n` listed facts have been looked at and the cap or the end is reached.
  lemma TopUpDone(first: seq<Id>, top: seq<Id>, cap: nat, n: nat, out: seq<Id>)
    requires |first| <= cap && n <= |top| && out == first + NotYet(first, top[..n])
    requires |out| == cap || (n == |top| && |out| <= cap)
    ensures out == first + NotYet(first, top)[..Min(cap - |first|, |NotYet(first, top)|)]
  {
    NotYetGrows(first, top, n);
    assert top[..|top|] == top;
  }

  lemma ToppedUp(first: seq<Id>, top: seq<Id>, cap: nat, out: seq<Id>)
    requires |first| < cap && Distinct(first) && Distinct(top)
    requires out == first + NotYet(first, top)[..Min(cap - |first|, |NotYet(first, top)|)]
    ensures |out| <= cap && Distinct(out) && |first| <= |out| && out[..|first|] == first
    ensures Elems(out[|first|..]) !! Elems(first) && Elems(out[|first|..]) <= Elems(top)
    ensures |out| < cap ==> Elems(top) <= Elems(out)
  {
    var wanted := NotYet(first, top);
    var n := Min(cap - |first|, |wanted|);
    NotYetMembers(first, top);
    TakenMembers(wanted, n);
    DistinctTogether(first, wanted[..n]);
    assert out[|first|..] == wanted[..n];
    if |out| < cap {
      assert wanted[..n] == wanted;
      forall x | x in top
        ensures x in out
      {
        assert x in first || x in wanted;
      }
    }
  }

  lemma TakenMembers(s: seq<Id>, n: nat)
    requires n <= |s|
    ensures forall x <- s[..n] :: x in s
    ensures Distinct(s) ==> Distinct(s[..n])
  {
  }

  lemma DistinctTogether(s: seq<Id>, t: seq<Id>)
    requires Distinct(s) && Distinct(t) && forall x <- t :: x !in s
    ensures Distinct(s + t)
  {
    forall i, j | 0 <= i < j < |s + t|
      ensures (s + t)[i] != (s + t)[j]
    {
      if i < |s| <= j {
        var x := t[j - |s|];
        assert x in t && (s + t)[j] == x;
        var y := s[i];
        assert y in s && (s + t)[i] == y;
      }
    }
  }

  // Append the listed facts that are not already there, in the order of the list, until the cap is reached.
  method TopUp(first: seq<Id>, top: seq<Id>, cap: nat) returns (out: seq<Id>)
    requires |first| < cap && Distinct(first) && Distinct(top)
    ensures out == first + NotYet(first, top)[..Min(cap - |first|, |NotYet(first, top)|)]
    ensures |out| <= cap && Distinct(out)
    ensures |first| <= |out| && out[..|first|] == first
    ensures Elems(out[|first|..]) !! Elems(first) && Elems(out[|first|..]) <= Elems(top)
    ensures |out| < cap ==> Elems(top) <= Elems(out)
  {
    out := first;
    var already := Elems(first);
    var i := 0;
    while i < |top|
      invariant 0 <= i <= |top|
      invariant out == first + NotYet(first, top[..i]) && |out| < cap
    {
      assert top[..i + 1][..i] == top[..i];
      if top[i] !in already {
        out := out + [top[i]];
        if |out| >= cap {
          TopUpDone(first, top, cap, i + 1, out);
          ToppedUp(first, top, cap, out);
          return;
        }
      }
      i := i + 1;
    }
    TopUpDone(first, top, cap, i, out);
    ToppedUp(first, top, cap, out);
  }

  lemma IncreasingIsDistinct(s: seq<int>)
    requires Increasing(s)
    ensures Distinct(s)
  {
  }

  lemma SmallestFirst(ids: set<Id>, all: seq<Id>, n: nat)
    requires Increasing(all) && n <= |all| && Elems(all) == ids
    ensures Increasing(all[..n]) && Elems(all[..n]) <= ids
    ensures forall x <- all[..n], y <- ids - Elems(all[..n]) :: x < y
    ensures n == |all| ==> Elems(all[..n]) == ids
  {
    forall x, y | x in all[..n] && y in ids - Elems(all[..n])
      ensures x < y
    {
      var a :| 0 <= a < n && all[a] == x;
      var b :| 0 <= b < |all| && all[b] == y;
      assert forall k :: 0 <= k < n ==> all[k] in all[..n];
    }
    assert all[..|all|] == all;
  }

  method SortIds(ids: seq<Id>) returns (sorted: seq<Id>)
    requires Distinct(ids)
    ensures Increasing(sorted) && |sorted| == |ids| && Elems(sorted) == Elems(ids)
  {
    sorted := Sort(ids, Below);
    SortSorts(ids, Below);
    SortKeepsMembers(ids, Below);
    SortKeepsDistinct(ids, Below);
    forall i, j | 0 <= i < j < |sorted|
      ensures sorted[i] < sorted[j]
    {
      assert Below(sorted[i], sorted[j]);
    }
  }

  // ----- the busy guard -----

  // The history of the busy flag: a guard is created or dropped.
  datatype GuardOp = Raise | Lower

  // `MCP_BUSY` is one boolean: the last operation decides.
  predicate BusyFlag(history: seq<GuardOp>) {
    history != [] && history[|history| - 1] == Raise
  }

  function LiveGuards(history: seq<GuardOp>): int {
    if history == [] then 0
    else LiveGuards(history[..|history| - 1]) + (if history[|history| - 1] == Raise then 1 else -1)
  }

  // Guards are dropped after they are created, and all have been dropped in the end.
  ghost predicate Complete(history: seq<GuardOp>) {
    (forall i :: 0 <= i <= |history| ==> LiveGuards(history[..i]) >= 0) && LiveGuards(history) == 0
  }

  ghost predicate Truthful(history: seq<GuardOp>, i: nat)
    requires i <= |history|
  {
    BusyFlag(history[..i]) <==> LiveGuards(history[..i]) > 0
  }

  lemma OneOp(history: seq<GuardOp>, i: nat)
    requires i < |history|
    ensures LiveGuards(history[..i + 1]) == LiveGuards(history[..i]) + (if history[i] == Raise then 1 else -1)
    ensures BusyFlag(history[..i + 1]) <==> history[i] == Raise
  {
    assert history[..i + 1][..i] == history[..i];
  }

  lemma OneMoreOp(history: seq<GuardOp>, op: GuardOp)
    ensures LiveGuards(history + [op]) == LiveGuards(history) + (if op == Raise then 1 else -1)
    ensures BusyFlag(history + [op]) <==> op == Raise
    ensures (history + [op])[..|history| + 1] == history + [op]
  {
    assert (history + [op])[..|history|] == history;
  }

  /** Two guards alive at once: the first drop clears the flag although a call is still in flight. */
  lemma OverlapIsNoticed(history: seq<GuardOp>, i: nat) returns (j: nat)
    requires Complete(history) && i <= |history| && LiveGuards(history[..i]) >= 2
    ensures j <= |history| && !Truthful(history, j)
  {
    j := i;
    assert history[..|history|] == history;
    while LiveGuards(history[..j]) >= 2
      invariant j < |history|
      decreases |history| - j
      invariant LiveGuards(history[..j]) >= 1
      invariant LiveGuards(history[..j]) == 1 ==> !Truthful(history, j)
    {
      OneOp(history, j);
      j := j + 1;
    }
  }

  /** "Busy iff a tool call is in flight" holds throughout exactly when no two guards overlap. */
  lemma BusyFlagTruthfulIffNoOverlap(history: seq<GuardOp>)
    requires Complete(history)
    ensures (forall i :: 0 <= i <= |history| ==> Truthful(history, i))
       <==> (forall i :: 0 <= i <= |history| ==> LiveGuards(history[..i]) <= 1)
  {
    if i :| 0 <= i <= |history| && LiveGuards(history[..i]) >= 2 {
      var j := OverlapIsNoticed(history, i);
    } else {
      forall i | 0 <= i <= |history|
        ensures Truthful(history, i)
      {
        if i > 0 {
          OneOp(history, i - 1);
        }
      }
    }
  }

  /** The input that shows it: two guards that overlap leave the flag down while one is alive. */
  lemma OverlapClearsTheFlag()
    ensures Complete([Raise, Raise, Lower, Lower]) && !Truthful([Raise, Raise, Lower, Lower], 3)
  {
    var history := [Raise, Raise, Lower, Lower];
    OneOp(history, 0);
    OneOp(history, 1);
    OneOp(history, 2);
    OneOp(history, 3);
    assert history[..4] == history;
    forall i | 0 <= i <= |history|
      ensures LiveGuards(history[..i]) >= 0
    {
      assert i == 0 || i == 1 || i == 2 || i == 3 || i == 4;
    }
  }

  // ----- the server that raises the flag -----

  // One line on the server's standard input. Only a tool call that carries an id reaches the dispatcher;
  // `panics` says whether its handler does, in which case unwinding drops the guard.
  datatype Message = BlankLine | Unparsable | OtherMethod | ToolCall(hasId: bool, panics: bool)

  predicate Dispatches(m: Message) {
    m.ToolCall? && m.hasId
  }

  // The guard operations of a server that handles one line after the other.
  function Trace(messages: seq<Message>): seq<GuardOp> {
    if messages == [] then []
    else if Dispatches(messages[|messages| - 1]) then Trace(messages[..|messages| - 1]) + [Raise, Lower]
    else Trace(messages[..|messages| - 1])
  }

  lemma TraceOneMore(messages: seq<Message>, i: nat)
    requires i < |messages|
    ensures Trace(messages[..i + 1]) == Trace(messages[..i]) + (if Dispatches(messages[i]) then [Raise, Lower] else [])
  {
    assert messages[..i + 1][..i] == messages[..i];
  }

  // The calls among the first lines.
  ghost function Calls(messages: seq<Message>): set<nat> {
    set i: nat | i < |messages| && messages[i].ToolCall? && messages[i].hasId
  }

  function Raises(history: seq<GuardOp>): nat {
    if history == [] then 0
    else Raises(history[..|history| - 1]) + (if history[|history| - 1] == Raise then 1 else 0)
  }

  /** The flag goes up once and down once for every tool call that carries an id, and for nothing else. */
  lemma {:induction false} EveryCallRaisesOnce(messages: seq<Message>)
    ensures Raises(Trace(messages)) == |Calls(messages)| && |Trace(messages)| == 2 * |Calls(messages)|
  {
    if messages == [] {
      assert Calls(messages) == {};
    } else {
      var n := |messages| - 1;
      var init, last := messages[..n], messages[n];
      EveryCallRaisesOnce(init);
      assert Calls(messages) == Calls(init) + (if last.ToolCall? && last.hasId then {n} else {});
      var t := Trace(init);
      assert (t + [Raise, Lower])[..|t| + 1] == t + [Raise] && (t + [Raise])[..|t|] == t;
    }
  }

  ghost predicate NeverOverlaps(history: seq<GuardOp>) {
    && Complete(history)
    && forall i :: 0 <= i <= |history| ==> LiveGuards(history[..i]) <= 1
  }

  lemma CallAfterCall(history: seq<GuardOp>)
    requires NeverOverlaps(history)
    ensures NeverOverlaps(history + [Raise, Lower])
  {
    var longer := history + [Raise, Lower];
    assert longer == history + [Raise] + [Lower];
    OneMoreOp(history, Raise);
    OneMoreOp(history + [Raise], Lower);
    forall i | 0 <= i <= |longer|
      ensures 0 <= LiveGuards(longer[..i]) <= 1
    {
      if i <= |history| {
        assert longer[..i] == history[..i];
      } else if i == |history| + 1 {
        assert longer[..i] == history + [Raise];
      } else {
        assert longer[..i] == longer;
      }
    }
  }

  lemma {:induction false} TraceNeverOverlaps(messages: seq<Message>)
    ensures NeverOverlaps(Trace(messages))
  {
    if messages != [] {
      TraceNeverOverlaps(messages[..|messages| - 1]);
      if Dispatches(messages[|messages| - 1]) {
        CallAfterCall(Trace(messages[..|messages| - 1]));
      }
    } else {
      assert forall i :: 0 <= i <= |Trace(messages)| ==> Trace(messages)[..i] == [];
    }
  }

  /** The server reads one line, answers it, and only then reads the next: its guards never overlap, whatever
      arrives and whatever panics, so the flag is truthful at every point. */
  lemma SequentialServerIsTruthful(messages: seq<Message>)
    ensures NeverOverlaps(Trace(messages))
    ensures forall i :: 0 <= i <= |Trace(messages)| ==> Truthful(Trace(messages), i)
  {
    TraceNeverOverlaps(messages);
    BusyFlagTruthfulIffNoOverlap(Trace(messages));
  }

  ghost predicate AlwaysTruthful(history: seq<GuardOp>) {
    forall i :: 0 <= i <= |history| ==> Truthful(history, i)
  }

  // Between two lines no guard is alive and the flag is down.
  lemma BetweenLines(messages: seq<Message>)
    ensures LiveGuards(Trace(messages)) == 0 && !BusyFlag(Trace(messages)) && AlwaysTruthful(Trace(messages))
  {
    var history := Trace(messages);
    SequentialServerIsTruthful(messages);
    assert history[..|history|] == history;
    assert Truthful(history, |history|);
  }

  // The flag itself; `history` records the guards created and dropped so far.
  class BusyCell {
    var busy: bool
    ghost var history: seq<GuardOp>

    ghost predicate Valid()
      reads this
    {
      busy == BusyFlag(history)
    }

    constructor ()
      ensures Valid() && history == []
    {
      busy, history := false, [];
    }

    /** Whatever is in flight, the flag is right after a guard is created. */
    method NewGuard()
      requires Valid() && LiveGuards(history) >= 0
      modifies this
      ensures Valid() && history == old(history) + [Raise]
      ensures busy <==> LiveGuards(history) > 0
    {
      OneMoreOp(history, Raise);
      busy, history := true, history + [Raise];
    }

    /** After a guard is dropped the flag is right exactly if that guard was the only one. */
    method DropGuard()
      requires Valid() && LiveGuards(history) > 0
      modifies this
      ensures Valid() && history == old(history) + [Lower]
      ensures (busy <==> LiveGuards(history) > 0) <==> old(LiveGuards(history)) == 1
    {
      OneMoreOp(history, Lower);
      busy, history := false, history + [Lower];
    }

    /** The server's read loop: what it does to the flag, and that the flag told the truth throughout. */
    method Serve(messages: seq<Message>)
      requires history == [] && Valid()
      modifies this
      ensures Valid() && history == Trace(messages) && !busy
      ensures Raises(history) == |Calls(messages)| && |history| == 2 * |Calls(messages)|
      ensures AlwaysTruthful(history)
    {
      var i := 0;
      while i < |messages|
        invariant 0 <= i <= |messages|
        invariant Valid() && history == Trace(messages[..i])
      {
        TraceOneMore(messages, i);
        BetweenLines(messages[..i]);
        if Dispatches(messages[i]) {
          CallTool();
        }
        i := i + 1;
      }
      assert messages[..i] == messages;
      BetweenLines(messages);
      EveryCallRaisesOnce(messages);
    }

    // A guard for the time of the call; it is dropped also when the handler panics.
    method CallTool()
      requires Valid() && LiveGuards(history) == 0
      modifies this
      ensures Valid() && history == old(history) + [Raise, Lower]
    {
      OneMoreOp(history, Raise);
      NewGuard();
      DropGuard();
    }
  }
}
