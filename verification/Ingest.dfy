/** Ingest routing: where each candidate goes, and what a whole run does to the memory store. */
module Ingest {
  import opened Prelude
  import opened AuditText

  datatype Candidate =
    | Memory(content: string)
    | Fact
    | Procedure(triggerError: string, fix: string)

  // Ids are content-addressed within a library, so a point is named by its trimmed content.
  datatype PointState = Live | Quarantined
  type Store = map<string, PointState>

  function TrimStart(s: string): string {
    if s != [] && IsSpace(s[0]) then TrimStart(s[1..]) else s
  }

  function TrimEnd(s: string): string {
    if s != [] && IsSpace(s[|s| - 1]) then TrimEnd(s[..|s| - 1]) else s
  }

  function Trim(s: string): string {
    TrimEnd(TrimStart(s))
  }

  lemma {:induction false} TrimStartSkipsBlank(pre: string, s: string)
    requires Blank(pre)
    ensures TrimStart(pre + s) == TrimStart(s)
  {
    if pre == [] {
      assert pre + s == s;
    } else {
      assert (pre + s)[1..] == pre[1..] + s;
      TrimStartSkipsBlank(pre[1..], s);
    }
  }

  lemma {:induction false} TrimStartKeepsTail(s: string, post: string)
    requires !Blank(s)
    ensures TrimStart(s + post) == TrimStart(s) + post
  {
    if IsSpace(s[0]) {
      assert (s + post)[1..] == s[1..] + post;
      assert !Blank(s[1..]) by {
        var i :| 0 <= i < |s| && !IsSpace(s[i]);
        assert s[1..][i - 1] == s[i];
      }
      TrimStartKeepsTail(s[1..], post);
    }
  }

  lemma {:induction false} TrimEndDropsBlank(s: string, post: string)
    requires Blank(post)
    ensures TrimEnd(s + post) == TrimEnd(s)
  {
    if post == [] {
      assert s + post == s;
    } else {
      assert (s + post)[..|s + post| - 1] == s + post[..|post| - 1];
      TrimEndDropsBlank(s, post[..|post| - 1]);
    }
  }

  /** Padding with white space never changes the id: a padded re-assertion meets the same point. */
  lemma TrimIgnoresPadding(pre: string, s: string, post: string)
    requires Blank(pre) && Blank(post)
    ensures Trim(pre + s + post) == Trim(s)
  {
    assert pre + s + post == pre + (s + post);
    TrimStartSkipsBlank(pre, s + post);
    if Blank(s) {
      assert s + post == s + post + [] && s == s + [];
      TrimStartSkipsBlank(s + post, []);
      TrimStartSkipsBlank(s, []);
    } else {
      TrimStartKeepsTail(s, post);
      TrimEndDropsBlank(TrimStart(s), post);
    }
  }

  lemma {:induction false} TrimStartSplits(s: string) returns (k: nat)
    ensures k <= |s| && Blank(s[..k]) && TrimStart(s) == s[k..]
    ensures k < |s| ==> !IsSpace(s[k])
  {
    if s != [] && IsSpace(s[0]) {
      var rest := TrimStartSplits(s[1..]);
      k := rest + 1;
      assert s[..k] == [s[0]] + s[1..][..rest];
    } else {
      k := 0;
    }
  }

  lemma {:induction false} TrimEndSplits(s: string) returns (k: nat)
    ensures k <= |s| && Blank(s[k..]) && TrimEnd(s) == s[..k]
    ensures k > 0 ==> !IsSpace(s[k - 1])
  {
    if s != [] && IsSpace(s[|s| - 1]) {
      k := TrimEndSplits(s[..|s| - 1]);
      assert s[k..] == s[..|s| - 1][k..] + [s[|s| - 1]];
    } else {
      k := |s|;
    }
  }

  /** Trimming takes away white space at both ends and nothing else. */
  lemma TrimExactly(s: string)
    ensures exists i, j :: 0 <= i <= j <= |s| && Trim(s) == s[i..j] && Blank(s[..i]) && Blank(s[j..])
    ensures Trim(s) != [] ==> !IsSpace(Trim(s)[0]) && !IsSpace(Trim(s)[|Trim(s)| - 1])
  {
    var i := TrimStartSplits(s);
    var k := TrimEndSplits(s[i..]);
    assert s[i..][..k] == s[i..i + k] && s[i..][k..] == s[i + k..];
    assert Trim(s) != [] ==> Trim(s)[0] == s[i];
  }

  // The foreign answers for one candidate, all arbitrary: the secret scan, the relevance gate (cheap
  // filters, then novelty), the similarity test, whether the store's reads inside promotion and inside
  // the liveness check succeed, and whether its write succeeds.
  datatype Verdicts = Verdicts(
    secret: bool, gateAccepts: bool, nearDup: bool, promoteReads: bool, liveReads: bool, writes: bool)

  datatype Report = Report(
    considered: nat, storedMemories: nat, storedFacts: nat, skippedDup: nat, skippedSecret: nat,
    storedProcedures: nat, quarantined: nat, promoted: nat, reasserted: nat,
    skippedScopeFacts: nat, skippedScopeProcedures: nat)
  {
    // All counters except the number of candidates.
    function Total(): nat {
      storedMemories + storedFacts + skippedDup + skippedSecret + storedProcedures
      + quarantined + promoted + reasserted + skippedScopeFacts + skippedScopeProcedures
    }

    // No counter is below that of `r`, and the number of candidates is the same.
    predicate Extends(r: Report) {
      && considered == r.considered
      && storedMemories >= r.storedMemories && storedFacts >= r.storedFacts && skippedDup >= r.skippedDup
      && skippedSecret >= r.skippedSecret && storedProcedures >= r.storedProcedures
      && quarantined >= r.quarantined && promoted >= r.promoted && reasserted >= r.reasserted
      && skippedScopeFacts >= r.skippedScopeFacts && skippedScopeProcedures >= r.skippedScopeProcedures
    }
  }

  function EmptyReport(considered: nat): Report {
    Report(considered, 0, 0, 0, 0, 0, 0, 0, 0, 0, 0)
  }

  // `ok` is false when a store error aborts the run.
  datatype Outcome = Outcome(store: Store, report: Report, ok: bool)

  // ----- the store operations ingest relies on -----

  function Promoted(store: Store, id: string, readable: bool): (bool, Store) {
    if readable && id in store && store[id] == Quarantined then (true, store[id := Live]) else (false, store)
  }

  // Best effort: a failed read counts as "not known live".
  predicate LiveExists(store: Store, id: string, readable: bool) {
    readable && id in store && store[id] == Live
  }

  function AddQuarantined(store: Store, id: string): Store {
    if id == [] then store else store[id := Quarantined]
  }

  // Fragments shorter than three characters are not stored.
  predicate Storable(id: string) {
    |id| >= 3
  }

  // ----- routing one candidate -----

  function RouteMemory(store: Store, r: Report, content: string, v: Verdicts): Outcome {
    var id := Trim(content);
    if v.secret then Outcome(store, r.(skippedSecret := r.skippedSecret + 1), true)
    else if !v.gateAccepts then
      var (promoted, store') := Promoted(store, id, v.promoteReads);
      if promoted then Outcome(store', r.(promoted := r.promoted + 1), true)
      else if LiveExists(store, id, v.liveReads) then Outcome(store, r.(reasserted := r.reasserted + 1), true)
      else if !v.writes then Outcome(store, r, false)
      else Outcome(AddQuarantined(store, id), r.(quarantined := r.quarantined + 1), true)
    else if v.nearDup then
      var counted := r.(skippedDup := r.skippedDup + 1);
      if LiveExists(store, id, v.liveReads) then Outcome(store, counted, true)
      else if !v.writes then Outcome(store, counted, false)
      else Outcome(AddQuarantined(store, id), counted, true)
    else if !Storable(id) then Outcome(store, r, true)
    else if !v.writes then Outcome(store, r, false)
    else Outcome(store[id := Live], r.(storedMemories := r.storedMemories + 1), true)
  }

  function Route(store: Store, r: Report, c: Candidate, v: Verdicts, confine: bool): Outcome {
    match c
    case Memory(content) => RouteMemory(store, r, content, v)
    case Fact =>
      if confine then Outcome(store, r.(skippedScopeFacts := r.skippedScopeFacts + 1), true)
      else if v.secret then Outcome(store, r.(skippedSecret := r.skippedSecret + 1), true)
      else if !v.writes then Outcome(store, r, false)
      else Outcome(store, r.(storedFacts := r.storedFacts + 1), true)
    case Procedure(triggerError, fix) =>
      if confine then Outcome(store, r.(skippedScopeProcedures := r.skippedScopeProcedures + 1), true)
      else if Blank(triggerError) || Blank(fix) then Outcome(store, r, true)
      else if !v.writes then Outcome(store, r, false)
      else Outcome(store, r.(storedProcedures := r.storedProcedures + 1), true)
  }

  // The whole run as a left-to-right pass; it stops at the first store error.
  function RunSpec(store: Store, r: Report, cs: seq<Candidate>, vs: seq<Verdicts>, confine: bool): Outcome
    requires |cs| == |vs|
  {
    if cs == [] then Outcome(store, r, true)
    else
      var earlier := RunSpec(store, r, cs[..|cs| - 1], vs[..|cs| - 1], confine);
      if earlier.ok then Route(earlier.store, earlier.report, cs[|cs| - 1], vs[|cs| - 1], confine) else earlier
  }

  // Where a run stands before candidate `i`.
  function Before(store: Store, r: Report, cs: seq<Candidate>, vs: seq<Verdicts>, confine: bool, i: nat): Outcome
    requires |cs| == |vs| && i <= |cs|
  {
    RunSpec(store, r, cs[..i], vs[..i], confine)
  }

  lemma RunOneMore(store: Store, r: Report, cs: seq<Candidate>, vs: seq<Verdicts>, confine: bool, i: nat)
    requires |cs| == |vs| && i < |cs|
    ensures var o := Before(store, r, cs, vs, confine, i);
      Before(store, r, cs, vs, confine, i + 1) == if o.ok then Route(o.store, o.report, cs[i], vs[i], confine) else o
  {
    assert cs[..i + 1][..i] == cs[..i] && vs[..i + 1][..i] == vs[..i];
  }

  lemma RunIsLast(store: Store, r: Report, cs: seq<Candidate>, vs: seq<Verdicts>, confine: bool)
    requires |cs| == |vs|
    ensures Before(store, r, cs, vs, confine, |cs|) == RunSpec(store, r, cs, vs, confine)
  {
    assert cs[..|cs|] == cs && vs[..|cs|] == vs;
  }

  class Ingestor {
    var store: Store

    constructor (existing: Store)
      ensures store == existing
    {
      store := existing;
    }

    /** The ingest loop. An aborted run returns no report; what it had written stays written. */
    method RunIngest(cs: seq<Candidate>, vs: seq<Verdicts>, confine: bool) returns (report: Option<Report>)
      requires |cs| == |vs|
      modifies this
      ensures var o := RunSpec(old(store), EmptyReport(|cs|), cs, vs, confine);
        store == o.store && report == (if o.ok then Some(o.report) else None)
      ensures report.Some? ==> report.value.Total() + SilentCount(cs, vs, confine) == report.value.considered == |cs|
      ensures report.Some? && confine ==>
        && report.value.storedFacts == report.value.storedProcedures == 0
        && report.value.skippedScopeFacts == CountOf(cs, vs, AnyFact)
        && report.value.skippedScopeProcedures == CountOf(cs, vs, AnyProcedure)
      ensures report.Some? && !confine ==>
        && report.value.skippedScopeFacts == report.value.skippedScopeProcedures == 0
        && report.value.storedFacts == CountOf(cs, vs, OpenFact)
        && report.value.storedProcedures == CountOf(cs, vs, WholeProcedure)
    {
      ghost var start := store;
      var r := EmptyReport(|cs|);
      var i := 0;
      while i < |cs|
        invariant 0 <= i <= |cs|
        invariant Before(start, EmptyReport(|cs|), cs, vs, confine, i) == Outcome(store, r, true)
      {
        RunOneMore(start, EmptyReport(|cs|), cs, vs, confine, i);
        var ok;
        r, ok := IngestOne(r, cs[i], vs[i], confine);
        if !ok {
          AbortedStaysAborted(start, EmptyReport(|cs|), cs, vs, confine, i + 1);
          return None;
        }
        i := i + 1;
      }
      RunIsLast(start, EmptyReport(|cs|), cs, vs, confine);
      CountersAddUp(start, EmptyReport(|cs|), cs, vs, confine);
      GlobalWritesAreConfined(start, EmptyReport(|cs|), cs, vs, confine);
      report := Some(r);
    }

    method IngestOne(report: Report, c: Candidate, v: Verdicts, confine: bool) returns (r: Report, ok: bool)
      modifies this
      ensures Outcome(store, r, ok) == Route(old(store), report, c, v, confine)
    {
      r, ok := report, true;
      match c {
        case Memory(content) =>
          r, ok := IngestMemory(report, content, v);
        case Fact =>
          if confine {
            r := r.(skippedScopeFacts := r.skippedScopeFacts + 1);
          } else if v.secret {
            r := r.(skippedSecret := r.skippedSecret + 1);
          } else if v.writes {
            r := r.(storedFacts := r.storedFacts + 1);
          } else {
            ok := false;
          }
        case Procedure(triggerError, fix) =>
          if confine {
            r := r.(skippedScopeProcedures := r.skippedScopeProcedures + 1);
          } else if Blank(triggerError) || Blank(fix) {
          } else if v.writes {
            r := r.(storedProcedures := r.storedProcedures + 1);
          } else {
            ok := false;
          }
      }
    }

    method IngestMemory(report: Report, content: string, v: Verdicts) returns (r: Report, ok: bool)
      modifies this
      ensures Outcome(store, r, ok) == RouteMemory(old(store), report, content, v)
    {
      r, ok := report, true;
      var id := Trim(content);
      if v.secret {
        r := r.(skippedSecret := r.skippedSecret + 1);
        return;
      }
      if !v.gateAccepts {
        var (promoted, store') := Promoted(store, id, v.promoteReads);
        if promoted {
          store := store';
          r := r.(promoted := r.promoted + 1);
          return;
        }
        if LiveExists(store, id, v.liveReads) {
          r := r.(reasserted := r.reasserted + 1);
          return;
        }
        if !v.writes {
          return r, false;
        }
        store := AddQuarantined(store, id);
        r := r.(quarantined := r.quarantined + 1);
        return;
      }
      if v.nearDup {
        r := r.(skippedDup := r.skippedDup + 1);
        if !LiveExists(store, id, v.liveReads) {
          if !v.writes {
            return r, false;
          }
          store := AddQuarantined(store, id);
        }
        return;
      }
      if !Storable(id) {
        return;
      }
      if !v.writes {
        return r, false;
      }
      store := store[id := Live];
      r := r.(storedMemories := r.storedMemories + 1);
    }
  }

  lemma {:induction false} AbortedStaysAborted(
      store: Store, r: Report, cs: seq<Candidate>, vs: seq<Verdicts>, confine: bool, i: nat)
    requires |cs| == |vs| && i <= |cs| && !Before(store, r, cs, vs, confine, i).ok
    ensures RunSpec(store, r, cs, vs, confine) == Before(store, r, cs, vs, confine, i)
  {
    if i == |cs| {
      RunIsLast(store, r, cs, vs, confine);
    } else {
      var n := |cs| - 1;
      assert cs[..n][..i] == cs[..i] && vs[..n][..i] == vs[..i];
      AbortedStaysAborted(store, r, cs[..n], vs[..n], confine, i);
    }
  }

  // ----- the clobber guard -----

  // A memory candidate that would quarantine `id` and whose liveness check cannot read the store.
  predicate BlindHit(c: Candidate, v: Verdicts, id: string) {
    && c.Memory? && id != [] && Trim(c.content) == id
    && !v.secret && (!v.gateAccepts || v.nearDup) && !v.liveReads && v.writes
  }

  /** Exactly when routing turns a live memory into a quarantined one; no candidate removes a point. */
  lemma DemotesExactlyWhenBlind(store: Store, r: Report, c: Candidate, v: Verdicts, confine: bool, id: string)
    requires id in store
    ensures var after := Route(store, r, c, v, confine).store;
      && id in after
      && (store[id] == Live ==> (after[id] == Quarantined <==> BlindHit(c, v, id)))
  {
  }

  lemma {:induction false} PointsStay(
      store: Store, r: Report, cs: seq<Candidate>, vs: seq<Verdicts>, confine: bool, i: nat, id: string)
    requires |cs| == |vs| && i <= |cs| && id in store
    ensures id in Before(store, r, cs, vs, confine, i).store
  {
    if i > 0 {
      PointsStay(store, r, cs, vs, confine, i - 1, id);
      RunOneMore(store, r, cs, vs, confine, i - 1);
      var o := Before(store, r, cs, vs, confine, i - 1);
      DemotesExactlyWhenBlind(o.store, o.report, cs[i - 1], vs[i - 1], confine, id);
    }
  }

  ghost predicate QuarantinedBefore(
      store: Store, r: Report, cs: seq<Candidate>, vs: seq<Verdicts>, confine: bool, i: nat, id: string)
    requires |cs| == |vs| && i <= |cs|
  {
    var now := Before(store, r, cs, vs, confine, i).store;
    id in now && now[id] == Quarantined
  }

  // The run reaches candidate `i`, and that one hits `id` blindly.
  ghost predicate HitAt(
      store: Store, r: Report, cs: seq<Candidate>, vs: seq<Verdicts>, confine: bool, i: nat, id: string)
    requires |cs| == |vs| && i < |cs|
  {
    Before(store, r, cs, vs, confine, i).ok && BlindHit(cs[i], vs[i], id)
  }

  lemma StepClobbersIff(
      store: Store, r: Report, cs: seq<Candidate>, vs: seq<Verdicts>, confine: bool, i: nat, id: string)
    requires |cs| == |vs| && i < |cs| && id in store && !QuarantinedBefore(store, r, cs, vs, confine, i, id)
    ensures QuarantinedBefore(store, r, cs, vs, confine, i + 1, id) <==> HitAt(store, r, cs, vs, confine, i, id)
  {
    PointsStay(store, r, cs, vs, confine, i, id);
    RunOneMore(store, r, cs, vs, confine, i);
    var o := Before(store, r, cs, vs, confine, i);
    DemotesExactlyWhenBlind(o.store, o.report, cs[i], vs[i], confine, id);
  }

  lemma {:induction false} QuarantinedWasHit(
      store: Store, r: Report, cs: seq<Candidate>, vs: seq<Verdicts>, confine: bool, k: nat, id: string)
      returns (i: nat)
    requires |cs| == |vs| && k <= |cs| && id in store && store[id] == Live
    requires QuarantinedBefore(store, r, cs, vs, confine, k, id)
    ensures i < |cs| && HitAt(store, r, cs, vs, confine, i, id)
  {
    assert k > 0;
    if QuarantinedBefore(store, r, cs, vs, confine, k - 1, id) {
      i := QuarantinedWasHit(store, r, cs, vs, confine, k - 1, id);
    } else {
      StepClobbersIff(store, r, cs, vs, confine, k - 1, id);
      i := k - 1;
    }
  }

  /** Over any run: a live memory is quarantined at some point exactly if the run reaches a candidate that
      names it, whose verdicts lead to quarantine and whose liveness check cannot read the store. */
  lemma LiveMemoryIsLostIffBlindHit(
      store: Store, r: Report, cs: seq<Candidate>, vs: seq<Verdicts>, confine: bool, id: string)
    requires |cs| == |vs| && id in store && store[id] == Live
    ensures (exists k :: 0 <= k <= |cs| && QuarantinedBefore(store, r, cs, vs, confine, k, id))
       <==> (exists i :: 0 <= i < |cs| && HitAt(store, r, cs, vs, confine, i, id))
  {
    if k :| 0 <= k <= |cs| && QuarantinedBefore(store, r, cs, vs, confine, k, id) {
      var i := QuarantinedWasHit(store, r, cs, vs, confine, k, id);
    }
    if i :| 0 <= i < |cs| && HitAt(store, r, cs, vs, confine, i, id) {
      if !QuarantinedBefore(store, r, cs, vs, confine, i, id) {
        StepClobbersIff(store, r, cs, vs, confine, i, id);
      }
    }
  }

  /** So, whatever the gate and similarity verdicts: as long as the liveness check can read the store, no
      live memory becomes quarantined and no stored point disappears. */
  lemma LiveMemoriesStayLive(
      store: Store, r: Report, cs: seq<Candidate>, vs: seq<Verdicts>, confine: bool, id: string)
    requires |cs| == |vs| && id in store
    requires forall i :: 0 <= i < |vs| ==> vs[i].liveReads
    ensures var after := RunSpec(store, r, cs, vs, confine).store;
      id in after && (store[id] == Live ==> after[id] == Live)
  {
    PointsStay(store, r, cs, vs, confine, |cs|, id);
    RunIsLast(store, r, cs, vs, confine);
    if store[id] == Live && QuarantinedBefore(store, r, cs, vs, confine, |cs|, id) {
      var i := QuarantinedWasHit(store, r, cs, vs, confine, |cs|, id);
      assert false;
    }
  }

  /** One blind liveness check is enough to lose a live memory: a gated re-assertion of it. */
  lemma BlindCheckDemotes(r: Report)
    ensures var v := Verdicts(false, false, false, true, false, true);
            RunSpec(map["abc" := Live], r, [Memory("abc")], [v], false).store == map["abc" := Quarantined]
  {
    var c := Memory("abc");
    assert TrimStart("abc") == "abc" && TrimEnd("abc") == "abc";
    assert [c][..0] == [];
  }

  // ----- accounting -----

  // The candidates that raise no counter in a run without store errors.
  predicate Silent(c: Candidate, v: Verdicts, confine: bool) {
    match c
    case Memory(content) => !v.secret && v.gateAccepts && !v.nearDup && !Storable(Trim(content))
    case Fact => false
    case Procedure(triggerError, fix) => !confine && (Blank(triggerError) || Blank(fix))
  }

  function SilentCount(cs: seq<Candidate>, vs: seq<Verdicts>, confine: bool): nat
    requires |cs| == |vs|
  {
    if cs == [] then 0
    else SilentCount(cs[..|cs| - 1], vs[..|cs| - 1], confine)
         + (if Silent(cs[|cs| - 1], vs[|cs| - 1], confine) then 1 else 0)
  }

  lemma OneCandidateCounts(store: Store, r: Report, c: Candidate, v: Verdicts, confine: bool)
    ensures var o := Route(store, r, c, v, confine);
      && o.report.Extends(r) && r.Total() <= o.report.Total() <= r.Total() + 1
      && (o.ok ==> (o.report.Total() == r.Total() <==> Silent(c, v, confine)))
  {
  }

  /** Every candidate raises at most one counter and none is ever lowered; the counters of a completed run
      add up to the candidates less the silent ones. */
  lemma {:induction false} CountersAddUp(
      store: Store, r: Report, cs: seq<Candidate>, vs: seq<Verdicts>, confine: bool)
    requires |cs| == |vs|
    ensures var o := RunSpec(store, r, cs, vs, confine);
      && o.report.Extends(r) && o.report.Total() <= r.Total() + |cs|
      && (o.ok ==> o.report.Total() + SilentCount(cs, vs, confine) == r.Total() + |cs|)
  {
    if cs != [] {
      var n := |cs| - 1;
      CountersAddUp(store, r, cs[..n], vs[..n], confine);
      var earlier := RunSpec(store, r, cs[..n], vs[..n], confine);
      OneCandidateCounts(earlier.store, earlier.report, cs[n], vs[n], confine);
    }
  }

  // ----- which counter stands for what -----

  function CountOf(cs: seq<Candidate>, vs: seq<Verdicts>, which: (Candidate, Verdicts) -> bool): nat
    requires |cs| == |vs|
  {
    if cs == [] then 0
    else CountOf(cs[..|cs| - 1], vs[..|cs| - 1], which) + (if which(cs[|cs| - 1], vs[|cs| - 1]) then 1 else 0)
  }

  predicate AnyFact(c: Candidate, v: Verdicts) { c.Fact? }
  predicate AnyProcedure(c: Candidate, v: Verdicts) { c.Procedure? }
  predicate OpenFact(c: Candidate, v: Verdicts) { c.Fact? && !v.secret }
  predicate WholeProcedure(c: Candidate, v: Verdicts) {
    && c.Procedure?
    && (exists i :: 0 <= i < |c.triggerError| && !IsSpace(c.triggerError[i]))
    && (exists i :: 0 <= i < |c.fix| && !IsSpace(c.fix[i]))
  }
  predicate SecretMemory(c: Candidate, v: Verdicts) { c.Memory? && v.secret }
  predicate SecretCandidate(c: Candidate, v: Verdicts) { (c.Memory? || c.Fact?) && v.secret }
  predicate RejectedMemory(c: Candidate, v: Verdicts) { c.Memory? && !v.secret && !v.gateAccepts }
  predicate DuplicateMemory(c: Candidate, v: Verdicts) { c.Memory? && !v.secret && v.gateAccepts && v.nearDup }
  predicate NewMemory(c: Candidate, v: Verdicts) {
    c.Memory? && !v.secret && v.gateAccepts && !v.nearDup && |Trim(c.content)| >= 3
  }

  function One(raised: bool): nat {
    if raised then 1 else 0
  }

  lemma OneGlobalWrite(store: Store, r: Report, c: Candidate, v: Verdicts, confine: bool)
    requires Route(store, r, c, v, confine).ok
    ensures var o := Route(store, r, c, v, confine).report;
      && o.storedFacts == r.storedFacts + One(!confine && OpenFact(c, v))
      && o.storedProcedures == r.storedProcedures + One(!confine && WholeProcedure(c, v))
      && o.skippedScopeFacts == r.skippedScopeFacts + One(confine && AnyFact(c, v))
      && o.skippedScopeProcedures == r.skippedScopeProcedures + One(confine && AnyProcedure(c, v))
      && o.skippedSecret == r.skippedSecret + One(if confine then SecretMemory(c, v) else SecretCandidate(c, v))
  {
    if c.Procedure? {
      assert WholeProcedure(c, v) <==> !Blank(c.triggerError) && !Blank(c.fix);
    }
  }

  /** A run confined to a library writes no fact and no procedure and reports every one of them as skipped for
      that; any other run skips none for that, and stores the facts that are no secret and the procedures that
      are whole. */
  lemma {:induction false} GlobalWritesAreConfined(
      store: Store, r: Report, cs: seq<Candidate>, vs: seq<Verdicts>, confine: bool)
    requires |cs| == |vs| && RunSpec(store, r, cs, vs, confine).ok
    ensures var o := RunSpec(store, r, cs, vs, confine).report;
      && (confine ==>
            && o.storedFacts == r.storedFacts && o.storedProcedures == r.storedProcedures
            && o.skippedScopeFacts == r.skippedScopeFacts + CountOf(cs, vs, AnyFact)
            && o.skippedScopeProcedures == r.skippedScopeProcedures + CountOf(cs, vs, AnyProcedure)
            && o.skippedSecret == r.skippedSecret + CountOf(cs, vs, SecretMemory))
      && (!confine ==>
            && o.skippedScopeFacts == r.skippedScopeFacts && o.skippedScopeProcedures == r.skippedScopeProcedures
            && o.storedFacts == r.storedFacts + CountOf(cs, vs, OpenFact)
            && o.storedProcedures == r.storedProcedures + CountOf(cs, vs, WholeProcedure)
            && o.skippedSecret == r.skippedSecret + CountOf(cs, vs, SecretCandidate))
  {
    if cs != [] {
      var n := |cs| - 1;
      GlobalWritesAreConfined(store, r, cs[..n], vs[..n], confine);
      var earlier := RunSpec(store, r, cs[..n], vs[..n], confine);
      OneGlobalWrite(earlier.store, earlier.report, cs[n], vs[n], confine);
    }
  }

  // How many rejected memories met their point in the state `found`, as far as the store could be read.
  function MetAs(
      store: Store, r: Report, cs: seq<Candidate>, vs: seq<Verdicts>, confine: bool, found: PointState): nat
    requires |cs| == |vs|
  {
    if cs == [] then 0
    else
      var n := |cs| - 1;
      var now := RunSpec(store, r, cs[..n], vs[..n], confine).store;
      MetAs(store, r, cs[..n], vs[..n], confine, found) + One(Meets(now, cs[n], vs[n], found))
  }

  predicate Meets(store: Store, c: Candidate, v: Verdicts, found: PointState) {
    && RejectedMemory(c, v) && Trim(c.content) in store && store[Trim(c.content)] == found
    && (if found == Quarantined then v.promoteReads else v.liveReads)
  }

  lemma OneMemoryReported(store: Store, r: Report, c: Candidate, v: Verdicts, confine: bool)
    requires Route(store, r, c, v, confine).ok
    ensures var o := Route(store, r, c, v, confine).report;
      && o.skippedDup == r.skippedDup + One(DuplicateMemory(c, v))
      && o.storedMemories == r.storedMemories + One(NewMemory(c, v))
      && o.promoted == r.promoted + One(Meets(store, c, v, Quarantined))
      && o.reasserted == r.reasserted + One(Meets(store, c, v, Live))
      && o.promoted + o.reasserted + o.quarantined
           == r.promoted + r.reasserted + r.quarantined + One(RejectedMemory(c, v))
  {
  }

  /** What a completed run reports about memories: near-duplicates and new memories by their verdicts alone;
      the rejected ones as promoted, re-asserted or quarantined by the state in which they met their point. */
  lemma {:induction false} MemoriesAreReported(
      store: Store, r: Report, cs: seq<Candidate>, vs: seq<Verdicts>, confine: bool)
    requires |cs| == |vs| && RunSpec(store, r, cs, vs, confine).ok
    ensures var o := RunSpec(store, r, cs, vs, confine).report;
      && o.skippedDup == r.skippedDup + CountOf(cs, vs, DuplicateMemory)
      && o.storedMemories == r.storedMemories + CountOf(cs, vs, NewMemory)
      && o.promoted == r.promoted + MetAs(store, r, cs, vs, confine, Quarantined)
      && o.reasserted == r.reasserted + MetAs(store, r, cs, vs, confine, Live)
      && o.promoted + o.reasserted + o.quarantined
           == r.promoted + r.reasserted + r.quarantined + CountOf(cs, vs, RejectedMemory)
  {
    if cs != [] {
      var n := |cs| - 1;
      MemoriesAreReported(store, r, cs[..n], vs[..n], confine);
      var earlier := RunSpec(store, r, cs[..n], vs[..n], confine);
      OneMemoryReported(earlier.store, earlier.report, cs[n], vs[n], confine);
    }
  }

  // ----- store errors -----

  // The candidate makes the run write to the store.
  predicate NeedsWrite(store: Store, c: Candidate, v: Verdicts, confine: bool) {
    match c
    case Memory(content) =>
      var id := Trim(content);
      && !v.secret
      && !(id in store && store[id] == Live && v.liveReads && (!v.gateAccepts || v.nearDup))
      && !(id in store && store[id] == Quarantined && v.promoteReads && !v.gateAccepts)
      && !(v.gateAccepts && !v.nearDup && |id| < 3)
    case Fact => !confine && !v.secret
    case Procedure(triggerError, fix) => !confine && WholeProcedure(c, v)
  }

  /** A run ends early exactly at the first write that fails, and that write leaves the store as it was. */
  lemma AbortsExactlyOnFailedWrite(store: Store, r: Report, c: Candidate, v: Verdicts, confine: bool)
    ensures var o := Route(store, r, c, v, confine);
      && (!o.ok <==> !v.writes && NeedsWrite(store, c, v, confine))
      && (!o.ok ==> o.store == store)
  {
    if c.Procedure? {
      assert WholeProcedure(c, v) <==> !Blank(c.triggerError) && !Blank(c.fix);
    }
  }

  ghost function IdsOf(store: Store, state: PointState): set<string> {
    set id | id in store && store[id] == state
  }

  lemma WriteMovesOne(store: Store, id: string, state: PointState, wanted: PointState)
    ensures IdsOf(store[id := state], wanted)
         == if state == wanted then IdsOf(store, wanted) + {id} else IdsOf(store, wanted) - {id}
  {
  }

  // What one candidate does to the store, as seen in the report.
  lemma CounterAndWrite(store: Store, r: Report, c: Candidate, v: Verdicts, confine: bool)
    ensures var o := Route(store, r, c, v, confine);
      || (o.store == store && o.report.promoted == r.promoted)
      || (c.Memory? && var id := Trim(c.content);
          || (o.store == store[id := Live] && o.report == r.(promoted := r.promoted + 1)
              && id in store && store[id] == Quarantined)
          || (o.store == store[id := Live] && o.report == r.(storedMemories := r.storedMemories + 1))
          || (o.store == store[id := Quarantined] && (v.liveReads ==> !LiveExists(store, id, true))
              && (o.report == r.(quarantined := r.quarantined + 1) || o.report == r.(skippedDup := r.skippedDup + 1))))
  {
  }

  // How far the counters of `to` run ahead of those of `from`.
  function LiveGain(from: Report, to: Report): int {
    to.promoted - from.promoted + to.storedMemories - from.storedMemories
  }

  function QuarantineGain(from: Report, to: Report): int {
    to.quarantined - from.quarantined + to.skippedDup - from.skippedDup - (to.promoted - from.promoted)
  }

  lemma OneCandidateBalances(store: Store, r: Report, c: Candidate, v: Verdicts, confine: bool)
    ensures var o := Route(store, r, c, v, confine);
      var live := |IdsOf(o.store, Live)| - |IdsOf(store, Live)|;
      && live <= LiveGain(r, o.report)
      && (v.liveReads ==> live >= o.report.promoted - r.promoted)
      && |IdsOf(o.store, Quarantined)| - |IdsOf(store, Quarantined)| <= QuarantineGain(r, o.report)
  {
    CounterAndWrite(store, r, c, v, confine);
    OneCandidateCounts(store, r, c, v, confine);
    if c.Memory? {
      var id := Trim(c.content);
      OneWriteBalances(store, id);
    }
  }

  lemma OneWriteBalances(store: Store, id: string)
    ensures var live, quar := |IdsOf(store, Live)|, |IdsOf(store, Quarantined)|;
      && live <= |IdsOf(store[id := Live], Live)| <= live + 1
      && (!LiveExists(store, id, true) ==> |IdsOf(store[id := Live], Live)| == live + 1)
      && |IdsOf(store[id := Quarantined], Live)| <= live
      && (!LiveExists(store, id, true) ==> |IdsOf(store[id := Quarantined], Live)| == live)
      && |IdsOf(store[id := Live], Quarantined)| <= quar
      && (id in store && store[id] == Quarantined ==> |IdsOf(store[id := Live], Quarantined)| == quar - 1)
      && |IdsOf(store[id := Quarantined], Quarantined)| <= quar + 1
  {
    WriteMovesOne(store, id, Live, Live);
    WriteMovesOne(store, id, Live, Quarantined);
    WriteMovesOne(store, id, Quarantined, Live);
    WriteMovesOne(store, id, Quarantined, Quarantined);
    SizeOfOneMore(IdsOf(store, Live), id);
    SizeOfOneMore(IdsOf(store, Quarantined), id);
  }

  lemma SizeOfOneMore(ids: set<string>, id: string)
    ensures |ids + {id}| == |ids| + (if id in ids then 0 else 1)
    ensures |ids - {id}| == |ids| - (if id in ids then 1 else 0)
  {
    assert id in ids ==> ids + {id} == ids;
    assert id !in ids ==> ids - {id} == ids;
    assert (ids - {id}) + {id} == ids + {id};
  }

  /** The report balances against the store over every run: the live memories grow by at most the promotions
      and stores, the quarantine by at most the quarantined and near-duplicates less the promotions; and with
      readable liveness checks every promotion is a live memory more. */
  lemma {:induction false} ReportBalancesStore(
      store: Store, r: Report, cs: seq<Candidate>, vs: seq<Verdicts>, confine: bool)
    requires |cs| == |vs|
    ensures var o := RunSpec(store, r, cs, vs, confine);
      var live := |IdsOf(o.store, Live)| - |IdsOf(store, Live)|;
      && live <= LiveGain(r, o.report)
      && ((forall i :: 0 <= i < |vs| ==> vs[i].liveReads) ==> live >= o.report.promoted - r.promoted)
      && |IdsOf(o.store, Quarantined)| - |IdsOf(store, Quarantined)| <= QuarantineGain(r, o.report)
  {
    if cs != [] {
      var n := |cs| - 1;
      ReportBalancesStore(store, r, cs[..n], vs[..n], confine);
      var earlier := RunSpec(store, r, cs[..n], vs[..n], confine);
      OneCandidateBalances(earlier.store, earlier.report, cs[n], vs[n], confine);
    }
  }

  // ----- re-assertion -----

  // A candidate judged with the store reachable.
  predicate Reachable(v: Verdicts) {
    !v.secret && v.promoteReads && v.liveReads && v.writes
  }

  /** Content the gate rejects: quarantined on first sight, live on the second, a no-op from the third on. */
  lemma ReassertionPromotes(store: Store, r: Report, content: string, v: Verdicts)
    requires Reachable(v) && !v.gateAccepts && Trim(content) != [] && Trim(content) !in store
    ensures var first := RouteMemory(store, r, content, v);
            var second := RouteMemory(first.store, first.report, content, v);
            var third := RouteMemory(second.store, second.report, content, v);
      && first == Outcome(store[Trim(content) := Quarantined], r.(quarantined := r.quarantined + 1), true)
      && second.store == store[Trim(content) := Live] && second.report.promoted == r.promoted + 1
      && third.store == second.store && third.report == second.report.(reasserted := r.reasserted + 1)
  {
  }

  /** Re-asserting quarantined content restores it exactly when the gate rejects it again, or when it is
      no longer a near-duplicate and long enough to store. */
  lemma ReassertionRestoresExactly(store: Store, r: Report, content: string, v: Verdicts)
    requires Reachable(v) && Trim(content) in store && store[Trim(content)] == Quarantined && Trim(content) != []
    ensures RouteMemory(store, r, content, v).store[Trim(content)] == Live
       <==> !v.gateAccepts || (!v.nearDup && Storable(Trim(content)))
  {
  }

  // The similarity search covers quarantined points too, so content that is in the store in either state is
  // its own nearest neighbour.
  ghost predicate SelfSimilar(
      store: Store, r: Report, content: string, vs: seq<Verdicts>)
  {
    forall i :: 0 <= i < |vs| && Trim(content) in Resubmitted(store, r, content, vs, i).store ==> vs[i].nearDup
  }

  // The same content submitted `n` times.
  function Resubmitted(store: Store, r: Report, content: string, vs: seq<Verdicts>, n: nat): Outcome
    requires n <= |vs|
  {
    RunSpec(store, r, seq(n, i => Memory(content)), vs[..n], false)
  }

  lemma ResubmitOnce(store: Store, r: Report, content: string, vs: seq<Verdicts>, n: nat)
    requires n < |vs|
    ensures var o := Resubmitted(store, r, content, vs, n);
      Resubmitted(store, r, content, vs, n + 1) == if o.ok then RouteMemory(o.store, o.report, content, vs[n]) else o
  {
    assert seq(n + 1, i => Memory(content))[..n] == seq(n, i => Memory(content));
    assert vs[..n + 1][..n] == vs[..n];
  }

  // Near-duplicate content that is in the store in either state stays as it is.
  lemma SubmittedAgain(store: Store, r: Report, content: string, v: Verdicts)
    requires Trim(content) in store && Trim(content) != [] && Reachable(v) && v.gateAccepts && v.nearDup
    ensures RouteMemory(store, r, content, v) == Outcome(store, r.(skippedDup := r.skippedDup + 1), true)
  {
    var id := Trim(content);
    assert store[id] == Quarantined ==> store[id := Quarantined] == store;
  }

  /** Content the gate accepts: the first similarity verdict decides for ever. A near-duplicate is quarantined
      then and at every further submission, although the report promises that re-asserting restores it;
      anything else is stored live and stays so. Every later submission counts as a skipped duplicate. */
  lemma {:induction false} FirstVerdictDecides(store: Store, r: Report, content: string, vs: seq<Verdicts>, n: nat)
    requires Trim(content) !in store && Trim(content) != [] && 1 <= n <= |vs|
    requires forall i :: 0 <= i < |vs| ==> Reachable(vs[i]) && vs[i].gateAccepts
    requires SelfSimilar(store, r, content, vs) && (vs[0].nearDup || Storable(Trim(content)))
    ensures Resubmitted(store, r, content, vs, n)
         == if vs[0].nearDup
            then Outcome(store[Trim(content) := Quarantined], r.(skippedDup := r.skippedDup + n), true)
            else Outcome(store[Trim(content) := Live],
                         r.(storedMemories := r.storedMemories + 1, skippedDup := r.skippedDup + n - 1), true)
  {
    ResubmitOnce(store, r, content, vs, n - 1);
    if n == 1 {
      assert Resubmitted(store, r, content, vs, 0) == Outcome(store, r, true);
    } else {
      FirstVerdictDecides(store, r, content, vs, n - 1);
      var o := Resubmitted(store, r, content, vs, n - 1);
      SubmittedAgain(o.store, o.report, content, vs[n - 1]);
    }
  }
}
