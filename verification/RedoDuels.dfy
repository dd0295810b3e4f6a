/** The fact store as the batch repair sees it, and the repair: one live fact per conflict axis. */
module RedoDuels {
  import opened Prelude
  import opened Sorting
  import opened Duel

  type Id = int

  datatype Status = Active | Contested | Stale | PropagationShadowed | Unknown | QuarantineCandidate | Superseded {
    predicate IsDefaultVisible() {
      this == Active || this == Status.Contested || this == Unknown
    }
  }

  // `created` is the rank of the stored text among strings; a missing one reads as "", rank 0.
  datatype Fact = Fact(
    subject: string, predicate': string, object': string, created: Option<nat>,
    valid: bool, status: Status, validUntil: Option<int>)
  {
    function CreatedKey(): nat {
      if created.Some? then created.value else 0
    }

    // What `list_all_facts` and `find_facts_by_subject_predicate` return.
    predicate IsLive() {
      valid && status.IsDefaultVisible()
    }

    function GetAxis(): Axis {
      (subject, predicate')
    }
  }

  type Axis = (string, string)
  type Facts = map<Id, Fact>
  type Registry = map<string, Cardinality>

  ghost function LiveOn(facts: Facts, axis: Axis): set<Id> {
    set id | id in facts && facts[id].IsLive() && facts[id].GetAxis() == axis
  }

  // Predicates missing from the registry are treated as Multi.
  predicate AxisConflicts(registry: Registry, axis: Axis) {
    axis.1 in registry && registry[axis.1].AdmitsConflict()
  }

  // The keeper of an axis: the newest live fact, and of several equally new ones the lowest id.
  ghost predicate IsWinner(facts: Facts, axis: Axis, id: Id) {
    && id in LiveOn(facts, axis)
    && forall other <- LiveOn(facts, axis) :: Beats(facts, id, other)
  }

  ghost predicate Beats(facts: Facts, x: Id, y: Id) {
    && x in facts && y in facts
    && facts[y].CreatedKey() <= facts[x].CreatedKey()
    && (facts[y].CreatedKey() == facts[x].CreatedKey() ==> x <= y)
  }

  /** There is at most one keeper: the ordering leaves no tie open. */
  lemma WinnerIsUnique(facts: Facts, axis: Axis, x: Id, y: Id)
    requires IsWinner(facts, axis, x) && IsWinner(facts, axis, y)
    ensures x == y
  {
    assert Beats(facts, x, y) && Beats(facts, y, x);
  }

  // `retire_loser`: the terminal status by cardinality.
  function Retired(f: Fact, card: Cardinality, now: int): Fact {
    f.(status := (if card == TemporalSingle then Superseded else Stale), validUntil := Some(now))
  }

  // `after` is `before` with exactly `losers` retired.
  ghost predicate RetiredExactly(before: Facts, losers: set<Id>, card: Cardinality, now: int, after: Facts) {
    && after.Keys == before.Keys
    && forall id <- before :: after[id] == (if id in losers then Retired(before[id], card, now) else before[id])
  }

  ghost function Losers(facts: Facts, axis: Axis): set<Id> {
    set id | id in LiveOn(facts, axis) && !IsWinner(facts, axis, id)
  }

  // The repaired store: on each of the given axes all live facts but the winner are retired.
  ghost predicate IsRepaired(before: Facts, registry: Registry, axes: set<Axis>, now: int, after: Facts) {
    && after.Keys == before.Keys
    && forall id <- before ::
        if before[id].IsLive() && before[id].GetAxis() in axes && !IsWinner(before, before[id].GetAxis(), id)
        then before[id].predicate' in registry
             && after[id] == Retired(before[id], registry[before[id].predicate'], now)
        else after[id] == before[id]
  }

  // The facts that no repair may touch: those whose predicate is unregistered or holds many values, and those
  // that are not on show.
  ghost predicate MayStay(f: Fact, registry: Registry) {
    || f.predicate' !in registry || registry[f.predicate'] == Multi
    || !f.valid
    || f.status == Stale || f.status == Superseded || f.status == PropagationShadowed || f.status == QuarantineCandidate
  }

  // The facts on show for a subject and a predicate.
  ghost function OnShow(facts: Facts, subject: string, predicate': string): set<Id> {
    set id | id in facts && facts[id].valid && facts[id].subject == subject && facts[id].predicate' == predicate'
             && (facts[id].status == Active || facts[id].status == Status.Contested || facts[id].status == Unknown)
  }

  ghost predicate OneLiveFactPerAxis(facts: Facts, registry: Registry) {
    forall subject: string, p: string :: p in registry && (registry[p] == Single || registry[p] == TemporalSingle) ==>
      |OnShow(facts, subject, p)| <= 1
  }

  lemma OnShowIsLive(facts: Facts, subject: string, predicate': string)
    ensures OnShow(facts, subject, predicate') == LiveOn(facts, (subject, predicate'))
  {
    forall id
      ensures id in OnShow(facts, subject, predicate') <==> id in LiveOn(facts, (subject, predicate'))
    {
      if id in facts {
        var f := facts[id];
        assert f.GetAxis() == (subject, predicate') <==> f.subject == subject && f.predicate' == predicate';
      }
    }
  }

  // The axes the pass works on.
  ghost function ConflictAxes(facts: Facts, registry: Registry): set<Axis> {
    set id | id in facts && facts[id].IsLive() && AxisConflicts(registry, facts[id].GetAxis())
             && |LiveOn(facts, facts[id].GetAxis())| >= 2 :: facts[id].GetAxis()
  }

  class FactStore {
    var facts: Facts

    constructor (existing: Facts)
      ensures facts == existing
    {
      facts := existing;
    }

    // Scrolling promises no order.
    method ListAllFacts() returns (ids: seq<Id>)
      ensures Distinct(ids) && Elems(ids) == set id | id in facts && facts[id].IsLive()
    {
      ids := ListSet(set id | id in facts && facts[id].IsLive());
    }

    method FindFacts(axis: Axis) returns (ids: seq<Id>)
      ensures Distinct(ids) && Elems(ids) == LiveOn(facts, axis)
    {
      ids := ListSet(set id | id in facts && facts[id].IsLive() && facts[id].GetAxis() == axis);
    }

    method RetireLoser(card: Cardinality, id: Id, now: int)
      requires id in facts
      modifies this
      ensures facts == old(facts)[id := Retired(old(facts)[id], card, now)]
    {
      var status := match card case TemporalSingle => Superseded case _ => Stale;
      facts := facts[id := facts[id].(status := status)];
      facts := facts[id := facts[id].(validUntil := Some(now))];
    }

    /** One axis, re-read under the lock: whatever order the store returns, the winner stays and the
        rest are retired. */
    method RetireAllButWinner(axis: Axis, card: Cardinality, now: int)
      modifies this
      ensures RetiredExactly(old(facts), Losers(old(facts), axis), card, now, facts)
    {
      var before := facts;
      var found := FindFacts(axis);
      var ranked := SortByDuelWinner(before, axis, found);
      if ranked == [] {
        return;
      }
      var i := 1;
      while i < |ranked|
        invariant 1 <= i <= |ranked|
        invariant RetiredExactly(before, Elems(ranked[1..i]), card, now, facts)
      {
        var loser := ranked[i];
        assert loser in ranked && loser in LiveOn(before, axis);
        assert ranked[1..i + 1] == ranked[1..i] + [loser];
        assert loser !in ranked[1..i];
        RetireLoser(card, loser, now);
        i := i + 1;
      }
      assert ranked[1..i] == ranked[1..];
      LosersAreTheTail(before, axis, ranked);
    }

    method ClusterByAxis() returns (clusters: map<Axis, seq<Id>>)
      ensures ClusteredBy(facts, clusters)
    {
      var ids := ListAllFacts();
      clusters := map[];
      var i := 0;
      while i < |ids|
        invariant 0 <= i <= |ids|
        invariant forall axis <- clusters :: Distinct(clusters[axis]) && clusters[axis] != []
        invariant forall axis <- clusters :: LiveMembers(facts, ids[..i], axis, clusters[axis])
        invariant forall id <- ids[..i] ::
            id in facts && facts[id].GetAxis() in clusters && id in clusters[facts[id].GetAxis()]
      {
        var id := ids[i];
        assert id in Elems(ids) && id !in ids[..i];
        assert ids[..i + 1] == ids[..i] + [id];
        var axis := facts[id].GetAxis();
        var group := if axis in clusters then clusters[axis] else [];
        assert LiveMembers(facts, ids[..i], axis, group) && id !in group;
        clusters := clusters[axis := group + [id]];
        assert LiveMembers(facts, ids[..i + 1], axis, group + [id]);
        i := i + 1;
      }
      assert ids[..i] == ids;
      ClustersComplete(facts, ids, clusters);
    }

    /** The pass. `limit` cuts the work list, worst offenders first; a dry run changes nothing. */
    method Redo(registry: Registry, apply: bool, limit: Option<nat>, now: int)
        returns (found: nat, kept: nat, dampened: nat, ghost processed: set<Axis>)
      modifies this
      ensures found == |ConflictAxes(old(facts), registry)|
      ensures limit.None? || found <= limit.value ==> processed == ConflictAxes(old(facts), registry)
      ensures limit.Some? && limit.value <= found ==> |processed| == limit.value
      ensures HoldsWorst(old(facts), ConflictAxes(old(facts), registry), processed)
      ensures forall x <- processed, y <- ConflictAxes(old(facts), registry) - processed ::
          |LiveOn(old(facts), x)| >= |LiveOn(old(facts), y)|
      ensures kept == |processed| && dampened == |AllLosers(old(facts), processed)|
      ensures apply ==> IsRepaired(old(facts), registry, processed, now, facts)
      ensures !apply ==> facts == old(facts)
      ensures facts.Keys == old(facts).Keys
      ensures forall id <- old(facts) :: MayStay(old(facts)[id], registry) ==> facts[id] == old(facts)[id]
      ensures apply && limit.None? ==> OneLiveFactPerAxis(facts, registry)
    {
      var before := facts;
      var clusters := ClusterByAxis();
      var work := WorkList(before, clusters, registry);
      found := |work|;
      DistinctSize(work);
      if limit.Some? && limit.value < |work| {
        CutOff(before, work, limit.value);
        work := work[..limit.value];
      }
      processed := Elems(work);
      DistinctSize(work);
      kept, dampened := RepairAll(registry, apply, now, clusters, work);
      forall x, y | x in processed && y in ConflictAxes(before, registry) - processed
        ensures |LiveOn(before, x)| >= |LiveOn(before, y)|
      {
        WorseIsLarger(before, x, y);
      }
      if apply {
        forall id | id in before && MayStay(before[id], registry)
          ensures facts[id] == before[id]
        {
          RepairTouchesOnlyLosers(before, registry, processed, now, facts, id);
        }
        if limit.None? {
          FullRepairIsCanonical(before, registry, now, facts);
        }
      }
    }

    // The loop of the pass over its work list.
    method RepairAll(registry: Registry, apply: bool, now: int, clusters: map<Axis, seq<Id>>, work: seq<Axis>)
        returns (kept: nat, dampened: nat)
      requires ClusteredBy(facts, clusters) && Distinct(work)
      requires forall k :: 0 <= k < |work| ==> work[k] in clusters && work[k].1 in registry
      modifies this
      ensures kept == |work| && dampened == |AllLosers(old(facts), Elems(work))|
      ensures apply ==> IsRepaired(old(facts), registry, Elems(work), now, facts)
      ensures !apply ==> facts == old(facts)
    {
      ghost var before := facts;
      kept, dampened := 0, 0;
      assert AllLosers(before, {}) == {};
      var i := 0;
      while i < |work|
        invariant 0 <= i <= |work| && kept == i
        invariant dampened == |AllLosers(before, Elems(work[..i]))|
        invariant apply ==> IsRepaired(before, registry, Elems(work[..i]), now, facts)
        invariant !apply ==> facts == before
      {
        var axis := work[i];
        ghost var done := Elems(work[..i]);
        OneMore(work, i);
        ClusterSize(before, clusters, axis);
        LosersOfOneMore(before, done, axis);
        kept := kept + 1;
        dampened := dampened + (|clusters[axis]| - 1);
        if apply {
          ghost var current := facts;
          OtherAxesUntouched(before, registry, done, now, current, axis);
          RetireAllButWinner(axis, registry[axis.1], now);
          RepairedOneMore(before, registry, done, now, current, axis, facts);
        }
        i := i + 1;
      }
      assert work[..i] == work;
    }
  }

  lemma OneMore(work: seq<Axis>, i: nat)
    requires Distinct(work) && i < |work|
    ensures Elems(work[..i + 1]) == Elems(work[..i]) + {work[i]}
    ensures work[i] !in Elems(work[..i])
  {
    assert work[..i + 1] == work[..i] + [work[i]];
  }

  // ----- clusters and the work list -----

  ghost predicate ClusteredBy(facts: Facts, clusters: map<Axis, seq<Id>>) {
    && (forall axis <- clusters :: Distinct(clusters[axis]) && Elems(clusters[axis]) == LiveOn(facts, axis))
    && (forall axis :: LiveOn(facts, axis) != {} <==> axis in clusters)
  }

  ghost predicate LiveMembers(facts: Facts, ids: seq<Id>, axis: Axis, group: seq<Id>) {
    forall id <- group :: id in ids && id in LiveOn(facts, axis)
  }

  lemma ClustersComplete(facts: Facts, ids: seq<Id>, clusters: map<Axis, seq<Id>>)
    requires Elems(ids) == set id | id in facts && facts[id].IsLive()
    requires forall axis <- clusters :: Distinct(clusters[axis]) && clusters[axis] != []
    requires forall axis <- clusters :: LiveMembers(facts, ids, axis, clusters[axis])
    requires forall id <- ids :: id in facts && facts[id].GetAxis() in clusters && id in clusters[facts[id].GetAxis()]
    ensures ClusteredBy(facts, clusters)
  {
    forall axis, id | id in LiveOn(facts, axis)
      ensures axis in clusters && id in Elems(clusters[axis])
    {
      assert id in Elems(ids);
    }
    forall axis, id | axis in clusters && id in Elems(clusters[axis])
      ensures id in LiveOn(facts, axis)
    {
      assert id in clusters[axis];
    }
    forall axis | axis in clusters
      ensures LiveOn(facts, axis) != {}
    {
      assert clusters[axis][0] in Elems(clusters[axis]);
    }
  }

  lemma ClusterSize(facts: Facts, clusters: map<Axis, seq<Id>>, axis: Axis)
    requires ClusteredBy(facts, clusters) && axis in clusters
    ensures |clusters[axis]| == |LiveOn(facts, axis)|
  {
    DistinctSize(clusters[axis]);
  }

  // The order of texts by code point, which is that of their bytes.
  predicate TextLeq(x: string, y: string) {
    x == [] || (y != [] && (x[0] < y[0] || (x[0] == y[0] && TextLeq(x[1..], y[1..]))))
  }

  lemma {:induction false} TextTotal(x: string, y: string)
    ensures TextLeq(x, y) || TextLeq(y, x)
    ensures TextLeq(x, y) && TextLeq(y, x) ==> x == y
  {
    if x != [] && y != [] && x[0] == y[0] {
      TextTotal(x[1..], y[1..]);
      assert x == [x[0]] + x[1..] && y == [y[0]] + y[1..];
    }
  }

  // The texts agree before `k`, and there the character of `x` is the lower one.
  ghost predicate LowerAt(x: string, y: string, k: nat) {
    k < |x| && k < |y| && x[..k] == y[..k] && x[k] < y[k]
  }

  lemma {:induction false} LowerWhere(x: string, y: string) returns (k: nat)
    requires TextLeq(x, y)
    ensures x <= y || LowerAt(x, y, k)
  {
    k := 0;
    if x != [] && x[0] == y[0] {
      var rest := LowerWhere(x[1..], y[1..]);
      k := rest + 1;
      assert x == [x[0]] + x[1..] && y == [y[0]] + y[1..];
      if LowerAt(x[1..], y[1..], rest) {
        assert x[..k] == [x[0]] + x[1..][..rest] && y[..k] == [y[0]] + y[1..][..rest];
      }
    }
  }

  lemma {:induction false} LowerIsLeq(x: string, y: string, k: nat)
    requires x <= y || LowerAt(x, y, k)
    ensures TextLeq(x, y)
  {
    if x <= y {
      if x != [] {
        LowerIsLeq(x[1..], y[1..], 0);
      }
    } else if k > 0 {
      assert x[..k][0] == y[..k][0];
      assert x[1..][..k - 1] == x[..k][1..] && y[1..][..k - 1] == y[..k][1..];
      LowerIsLeq(x[1..], y[1..], k - 1);
    }
  }

  /** The order of a dictionary: one text begins the other, or the first character that differs decides. */
  lemma TextLeqIsLexicographic(x: string, y: string)
    ensures TextLeq(x, y) <==> x <= y || exists k: nat :: LowerAt(x, y, k)
  {
    if TextLeq(x, y) {
      var k := LowerWhere(x, y);
    }
    if x <= y {
      LowerIsLeq(x, y, 0);
    } else if k: nat :| LowerAt(x, y, k) {
      LowerIsLeq(x, y, k);
    }
  }

  lemma {:induction false} TextTransitive(x: string, y: string, z: string)
    requires TextLeq(x, y) && TextLeq(y, z)
    ensures TextLeq(x, z)
  {
    if x != [] && x[0] == y[0] && y[0] == z[0] {
      TextTransitive(x[1..], y[1..], z[1..]);
    }
  }

  // The larger cluster comes first, then the lower subject, then the lower predicate.
  predicate WorksBefore(m: nat, x: Axis, n: nat, y: Axis) {
    || m > n
    || (m == n && x.0 != y.0 && TextLeq(x.0, y.0))
    || (m == n && x.0 == y.0 && TextLeq(x.1, y.1))
  }

  lemma WorkOrderIsTotal(m: nat, x: Axis, n: nat, y: Axis)
    ensures WorksBefore(m, x, n, y) || WorksBefore(n, y, m, x)
    ensures WorksBefore(m, x, n, y) && WorksBefore(n, y, m, x) ==> x == y
  {
    TextTotal(x.0, y.0);
    TextTotal(x.1, y.1);
  }

  lemma WorkOrderIsTransitive(m: nat, x: Axis, n: nat, y: Axis, k: nat, z: Axis)
    requires WorksBefore(m, x, n, y) && WorksBefore(n, y, k, z)
    ensures WorksBefore(m, x, k, z)
  {
    if m == n == k {
      TextTotal(x.0, y.0);
      TextTotal(y.0, z.0);
      if TextLeq(x.0, y.0) && TextLeq(y.0, z.0) {
        TextTransitive(x.0, y.0, z.0);
      }
      if TextLeq(x.1, y.1) && TextLeq(y.1, z.1) {
        TextTransitive(x.1, y.1, z.1);
      }
    }
  }

  function SizeOf(clusters: map<Axis, seq<Id>>, axis: Axis): nat {
    if axis in clusters then |clusters[axis]| else 0
  }

  predicate ClusterLeq(clusters: map<Axis, seq<Id>>, x: Axis, y: Axis) {
    WorksBefore(SizeOf(clusters, x), x, SizeOf(clusters, y), y)
  }

  function ByCluster(clusters: map<Axis, seq<Id>>): (Axis, Axis) -> bool {
    (x, y) => ClusterLeq(clusters, x, y)
  }

  lemma ClusterOrder(clusters: map<Axis, seq<Id>>)
    ensures TotalPreorder(ByCluster(clusters))
  {
    var leq := ByCluster(clusters);
    forall x, y
      ensures leq(x, y) || leq(y, x)
    {
      WorkOrderIsTotal(SizeOf(clusters, x), x, SizeOf(clusters, y), y);
    }
    forall x, y, z | leq(x, y) && leq(y, z)
      ensures leq(x, z)
    {
      WorkOrderIsTransitive(SizeOf(clusters, x), x, SizeOf(clusters, y), y, SizeOf(clusters, z), z);
    }
  }

  // The first of two axes on the work list is the worse offender.
  ghost predicate Worse(facts: Facts, x: Axis, y: Axis) {
    WorksBefore(|LiveOn(facts, x)|, x, |LiveOn(facts, y)|, y)
  }

  // The larger cluster is the worse, and of equal ones the one that comes first in the dictionary.
  lemma WorseIsLarger(facts: Facts, x: Axis, y: Axis)
    requires Worse(facts, x, y)
    ensures |LiveOn(facts, x)| >= |LiveOn(facts, y)|
    ensures |LiveOn(facts, x)| == |LiveOn(facts, y)| ==>
      TextLeq(x.0, y.0) && (x.0 == y.0 ==> TextLeq(x.1, y.1))
  {
    TextTotal(x.0, y.0);
  }

  ghost predicate WorstFirst(facts: Facts, work: seq<Axis>) {
    forall i, j :: 0 <= i < j < |work| ==> Worse(facts, work[i], work[j])
  }

  // The conflict-bearing clusters, in the order of the hash map.
  method SelectWork(facts: Facts, clusters: map<Axis, seq<Id>>, registry: Registry) returns (work: seq<Axis>)
    requires ClusteredBy(facts, clusters)
    ensures Distinct(work) && Elems(work) == ConflictAxes(facts, registry)
    ensures forall axis <- work :: axis in clusters && axis.1 in registry
  {
    var keys := ListSet(clusters.Keys);
    work := [];
    var i := 0;
    while i < |keys|
      invariant 0 <= i <= |keys|
      invariant Distinct(work)
      invariant forall axis :: axis in work <==>
          axis in keys[..i] && axis in clusters && AxisConflicts(registry, axis) && |clusters[axis]| >= 2
    {
      var axis := keys[i];
      assert axis in Elems(keys) && axis !in keys[..i];
      assert keys[..i + 1] == keys[..i] + [axis];
      if |clusters[axis]| >= 2 && AxisConflicts(registry, axis) {
        work := work + [axis];
      }
      i := i + 1;
    }
    assert keys[..i] == keys;
    assert forall axis :: axis in clusters ==> axis in Elems(keys);
    WorkIsConflicts(facts, clusters, registry, work);
  }

  method WorkList(facts: Facts, clusters: map<Axis, seq<Id>>, registry: Registry) returns (work: seq<Axis>)
    requires ClusteredBy(facts, clusters)
    ensures Distinct(work) && Elems(work) == ConflictAxes(facts, registry)
    ensures forall axis <- work :: axis in clusters && axis.1 in registry
    ensures WorstFirst(facts, work)
    ensures forall i, j :: 0 <= i < j < |work| ==> |LiveOn(facts, work[i])| >= |LiveOn(facts, work[j])|
  {
    var selected := SelectWork(facts, clusters, registry);
    work := Sort(selected, ByCluster(clusters));
    SortedSelection(facts, clusters, selected);
    forall i, j | 0 <= i < j < |work|
      ensures |LiveOn(facts, work[i])| >= |LiveOn(facts, work[j])|
    {
      WorseIsLarger(facts, work[i], work[j]);
    }
  }

  lemma SortedSelection(facts: Facts, clusters: map<Axis, seq<Id>>, selected: seq<Axis>)
    requires ClusteredBy(facts, clusters) && Distinct(selected) && forall axis <- selected :: axis in clusters
    ensures var work := Sort(selected, ByCluster(clusters));
      && Distinct(work) && Elems(work) == Elems(selected) && WorstFirst(facts, work)
      && forall axis <- work :: axis in selected
  {
    var leq := ByCluster(clusters);
    var work := Sort(selected, leq);
    assert Distinct(work) by {
      SortKeepsDistinct(selected, leq);
    }
    SameAxes(selected, leq);
    assert WorstFirst(facts, work) by {
      SortsByCluster(clusters, selected);
      SortedIsWorstFirst(facts, clusters, work);
    }
  }

  lemma SameAxes(selected: seq<Axis>, leq: (Axis, Axis) -> bool)
    ensures Elems(Sort(selected, leq)) == Elems(selected)
    ensures forall axis <- Sort(selected, leq) :: axis in selected
  {
    SortKeepsMembers(selected, leq);
    forall axis | axis in Sort(selected, leq)
      ensures axis in selected
    {
      assert axis in Elems(Sort(selected, leq));
    }
  }

  lemma SortsByCluster(clusters: map<Axis, seq<Id>>, selected: seq<Axis>)
    ensures var work := Sort(selected, ByCluster(clusters));
      forall i, j :: 0 <= i < j < |work| ==> ClusterLeq(clusters, work[i], work[j])
  {
    var leq := ByCluster(clusters);
    var work := Sort(selected, leq);
    assert Sorted(work, leq) by {
      ClusterOrder(clusters);
      SortSorts(selected, leq);
    }
    forall i, j | 0 <= i < j < |work|
      ensures ClusterLeq(clusters, work[i], work[j])
    {
      assert leq(work[i], work[j]);
    }
  }

  lemma SortedIsWorstFirst(facts: Facts, clusters: map<Axis, seq<Id>>, work: seq<Axis>)
    requires ClusteredBy(facts, clusters) && forall axis <- work :: axis in clusters
    requires forall i, j :: 0 <= i < j < |work| ==> ClusterLeq(clusters, work[i], work[j])
    ensures WorstFirst(facts, work)
  {
    forall i, j | 0 <= i < j < |work|
      ensures Worse(facts, work[i], work[j])
    {
      var x, y := work[i], work[j];
      assert x in work && y in work;
      ClusterSize(facts, clusters, x);
      ClusterSize(facts, clusters, y);
      assert ClusterLeq(clusters, work[i], work[j]);
    }
  }

  lemma WorkIsConflicts(facts: Facts, clusters: map<Axis, seq<Id>>, registry: Registry, work: seq<Axis>)
    requires ClusteredBy(facts, clusters)
    requires forall axis :: axis in work <==>
        axis in clusters && AxisConflicts(registry, axis) && |clusters[axis]| >= 2
    ensures Elems(work) == ConflictAxes(facts, registry)
  {
    forall axis
      ensures axis in Elems(work) <==> axis in ConflictAxes(facts, registry)
    {
      if axis in clusters {
        ClusterSize(facts, clusters, axis);
        var id := SomeMember(LiveOn(facts, axis));
        assert facts[id].GetAxis() == axis;
      }
    }
  }

  lemma CutOff(facts: Facts, work: seq<Axis>, n: nat)
    requires Distinct(work) && WorstFirst(facts, work) && n <= |work|
    ensures |Elems(work[..n])| == n && HoldsWorst(facts, Elems(work), Elems(work[..n]))
  {
    DistinctSize(work[..n]);
    forall x, y | x in Elems(work[..n]) && y in Elems(work) && y !in Elems(work[..n])
      ensures Worse(facts, x, y)
    {
      var i :| 0 <= i < n && work[..n][i] == x;
      var j :| 0 <= j < |work| && work[j] == y;
      assert forall k :: 0 <= k < n ==> work[k] in work[..n];
    }
  }

  // `s` holds the worst offenders of `all`.
  ghost predicate HoldsWorst(facts: Facts, all: set<Axis>, s: set<Axis>) {
    s <= all && forall x, y :: x in s && y in all && y !in s ==> Worse(facts, x, y)
  }

  /** The limit leaves nothing to chance: two sets of the same size that hold the worst offenders are one. */
  lemma LimitedWorkIsUnique(facts: Facts, all: set<Axis>, s: set<Axis>, t: set<Axis>)
    requires HoldsWorst(facts, all, s) && HoldsWorst(facts, all, t) && |s| == |t|
    ensures s == t
  {
    if s != t {
      SameSizeDiffers(s, t);
      SameSizeDiffers(t, s);
      var x := SomeMember(s - t);
      var y := SomeMember(t - s);
      WorkOrderIsTotal(|LiveOn(facts, x)|, x, |LiveOn(facts, y)|, y);
    }
  }

  lemma SameSizeDiffers(s: set<Axis>, t: set<Axis>)
    requires |s| == |t| && s != t
    ensures s - t != {}
  {
    var rest := t - s;
    assert |s + rest| == |s| + |rest|;
    assert s - t == {} ==> s + rest == t;
    assert |rest| == 0 ==> rest == {};
  }

  // ----- winners and losers -----

  // The keeper exists on every axis that has a live fact, so all but one of its facts lose.
  lemma {:induction false} BestOf(facts: Facts, ids: set<Id>) returns (best: Id)
    requires ids != {} && ids <= facts.Keys
    ensures best in ids && forall other <- ids :: Beats(facts, best, other)
    decreases |ids|
  {
    var x := SomeMember(ids);
    best := x;
    if ids != {x} {
      assert ids == (ids - {x}) + {x};
      var rest := BestOf(facts, ids - {x});
      best := if Beats(facts, x, rest) then x else rest;
      assert forall other <- ids :: other == x || other in ids - {x};
    }
  }

  lemma WinnerExists(facts: Facts, axis: Axis) returns (winner: Id)
    requires LiveOn(facts, axis) != {}
    ensures IsWinner(facts, axis, winner)
    ensures Losers(facts, axis) == LiveOn(facts, axis) - {winner}
    ensures |Losers(facts, axis)| == |LiveOn(facts, axis)| - 1
  {
    winner := BestOf(facts, LiveOn(facts, axis));
    forall id | IsWinner(facts, axis, id)
      ensures id == winner
    {
      WinnerIsUnique(facts, axis, id, winner);
    }
  }

  ghost function AllLosers(facts: Facts, axes: set<Axis>): set<Id> {
    set id | id in facts && facts[id].GetAxis() in axes && id in Losers(facts, facts[id].GetAxis())
  }

  lemma LosersOfOneMore(facts: Facts, axes: set<Axis>, axis: Axis)
    requires axis !in axes && LiveOn(facts, axis) != {}
    ensures |AllLosers(facts, axes + {axis})| == |AllLosers(facts, axes)| + |LiveOn(facts, axis)| - 1
  {
    var winner := WinnerExists(facts, axis);
    LosersSplit(facts, axes, axis);
  }

  lemma LosersSplit(facts: Facts, axes: set<Axis>, axis: Axis)
    requires axis !in axes
    ensures AllLosers(facts, axes + {axis}) == AllLosers(facts, axes) + Losers(facts, axis)
    ensures AllLosers(facts, axes) !! Losers(facts, axis)
  {
  }

  // Repairing some axes leaves every other axis exactly as it was.
  lemma OtherAxesUntouched(
      before: Facts, registry: Registry, axes: set<Axis>, now: int, current: Facts, axis: Axis)
    requires IsRepaired(before, registry, axes, now, current) && axis !in axes
    ensures LiveOn(current, axis) == LiveOn(before, axis)
    ensures forall id :: IsWinner(current, axis, id) <==> IsWinner(before, axis, id)
    ensures Losers(current, axis) == Losers(before, axis)
  {
    forall id
      ensures id in LiveOn(current, axis) <==> id in LiveOn(before, axis)
    {
    }
    assert forall id <- LiveOn(before, axis) :: current[id] == before[id];
  }

  lemma RepairedOneMore(
      before: Facts, registry: Registry, axes: set<Axis>, now: int, current: Facts, axis: Axis, after: Facts)
    requires IsRepaired(before, registry, axes, now, current) && axis !in axes && axis.1 in registry
    requires Losers(current, axis) == Losers(before, axis)
    requires RetiredExactly(current, Losers(current, axis), registry[axis.1], now, after)
    ensures IsRepaired(before, registry, axes + {axis}, now, after)
  {
    forall id | id in before
      ensures id in Losers(before, axis) <==>
        before[id].IsLive() && before[id].GetAxis() == axis && !IsWinner(before, before[id].GetAxis(), id)
    {
    }
  }

  ghost predicate Ranked(facts: Facts, axis: Axis, ranked: seq<Id>) {
    && Distinct(ranked)
    && (forall id :: id in ranked <==> id in LiveOn(facts, axis))
    && (ranked != [] ==> IsWinner(facts, axis, ranked[0]))
  }

  lemma LosersAreTheTail(facts: Facts, axis: Axis, ranked: seq<Id>)
    requires Ranked(facts, axis, ranked) && ranked != []
    ensures Elems(ranked[1..]) == Losers(facts, axis)
  {
    assert ranked == [ranked[0]] + ranked[1..];
    forall id
      ensures id in Elems(ranked[1..]) <==> id in Losers(facts, axis)
    {
      if IsWinner(facts, axis, id) {
        WinnerIsUnique(facts, axis, id, ranked[0]);
      }
    }
  }

  // The comparison of the sort: later creation first, then smaller id.
  predicate SortsBefore(facts: Facts, x: Id, y: Id) {
    var a, b := KeyOf(facts, x), KeyOf(facts, y);
    if a != b then b < a else x <= y
  }

  function KeyOf(facts: Facts, id: Id): nat {
    if id in facts then facts[id].CreatedKey() else 0
  }

  /** `sort_facts_by_duel_winner`: index 0 is the keeper. */
  method SortByDuelWinner(facts: Facts, axis: Axis, ids: seq<Id>) returns (ranked: seq<Id>)
    requires Distinct(ids) && Elems(ids) == LiveOn(facts, axis)
    ensures Ranked(facts, axis, ranked)
  {
    var leq := (x: Id, y: Id) => SortsBefore(facts, x, y);
    ranked := Sort(ids, leq);
    SortSorts(ids, leq);
    SortKeepsMembers(ids, leq);
    SortKeepsDistinct(ids, leq);
    assert forall i, j :: 0 <= i < j < |ranked| ==> leq(ranked[i], ranked[j]);
    FirstIsWinner(facts, axis, ids, ranked);
  }

  lemma FirstIsWinner(facts: Facts, axis: Axis, ids: seq<Id>, ranked: seq<Id>)
    requires Elems(ids) == LiveOn(facts, axis) && Distinct(ranked) && forall id :: id in ranked <==> id in ids
    requires forall i, j :: 0 <= i < j < |ranked| ==> SortsBefore(facts, ranked[i], ranked[j])
    ensures Ranked(facts, axis, ranked)
  {
    assert forall id :: id in ids <==> id in Elems(ids);
    if ranked != [] {
      var first := ranked[0];
      assert first in ranked && first in LiveOn(facts, axis);
      forall other | other in LiveOn(facts, axis)
        ensures Beats(facts, first, other)
      {
        var k :| 0 <= k < |ranked| && ranked[k] == other;
        assert k > 0 ==> SortsBefore(facts, ranked[0], ranked[k]);
      }
    }
  }

  // ----- what a full repair achieves -----

  /** On a repaired axis exactly the old winner is still live, with nothing about it changed. */
  lemma RepairedAxisKeepsItsWinner(
      before: Facts, registry: Registry, axes: set<Axis>, now: int, after: Facts, axis: Axis, winner: Id)
    requires IsRepaired(before, registry, axes, now, after) && axis in axes
    requires IsWinner(before, axis, winner)
    ensures LiveOn(after, axis) == {winner} && after[winner] == before[winner]
  {
    forall id | id in LiveOn(after, axis)
      ensures id == winner
    {
      assert id in LiveOn(before, axis) && IsWinner(before, axis, id);
      WinnerIsUnique(before, axis, id, winner);
    }
  }

  // Creation times in the open: an unknown one is older than every known one.
  predicate NotNewer(x: Option<nat>, y: Option<nat>) {
    match (x, y)
    case (Some(a), Some(b)) => a <= b
    case (Some(a), None) => a == 0
    case (None, _) => true
  }

  /** The fact that a repair keeps is the newest on show for its axis, and of equally new ones the one with
      the lowest id. */
  lemma KeptFactIsNewest(
      before: Facts, registry: Registry, axes: set<Axis>, now: int, after: Facts, kept: Id, other: Id)
    requires IsRepaired(before, registry, axes, now, after)
    requires kept in before && other in before && before[kept].GetAxis() in axes
    requires kept in OnShow(after, before[kept].subject, before[kept].predicate')
    requires other in OnShow(before, before[kept].subject, before[kept].predicate')
    ensures NotNewer(before[other].created, before[kept].created)
    ensures before[other].created == before[kept].created ==> kept <= other
  {
    OnShowIsLive(after, before[kept].subject, before[kept].predicate');
    OnShowIsLive(before, before[kept].subject, before[kept].predicate');
    var axis := before[kept].GetAxis();
    assert other in LiveOn(before, axis) && kept in LiveOn(after, axis);
    assert IsWinner(before, axis, kept);
    assert Beats(before, kept, other);
  }

  lemma CrowdedAxisIsFound(facts: Facts, registry: Registry, axis: Axis)
    requires AxisConflicts(registry, axis)
    ensures |LiveOn(facts, axis)| >= 2 ==> axis in ConflictAxes(facts, registry)
  {
    if |LiveOn(facts, axis)| >= 2 {
      var id := SomeMember(LiveOn(facts, axis));
      assert facts[id].GetAxis() == axis;
    }
  }

  /** A full pass leaves at most one live fact on every Single or TemporalSingle axis, and the next
      pass has nothing to do. */
  lemma FullRepairIsCanonical(before: Facts, registry: Registry, now: int, after: Facts)
    requires IsRepaired(before, registry, ConflictAxes(before, registry), now, after)
    ensures OneLiveFactPerAxis(after, registry)
    ensures ConflictAxes(after, registry) == {}
    ensures forall now', again ::
      IsRepaired(after, registry, ConflictAxes(after, registry), now', again) ==> again == after
  {
    forall axis | AxisConflicts(registry, axis)
      ensures |LiveOn(after, axis)| <= 1
    {
      CrowdedAxisIsFound(before, registry, axis);
      if axis in ConflictAxes(before, registry) {
        var id :| id in before && before[id].IsLive() && before[id].GetAxis() == axis;
        assert id in LiveOn(before, axis);
        var winner := WinnerExists(before, axis);
        RepairedAxisKeepsItsWinner(before, registry, ConflictAxes(before, registry), now, after, axis, winner);
      } else {
        OtherAxesUntouched(before, registry, ConflictAxes(before, registry), now, after, axis);
      }
    }
    forall subject: string, p: string | p in registry && (registry[p] == Single || registry[p] == TemporalSingle)
      ensures |OnShow(after, subject, p)| <= 1
    {
      OnShowIsLive(after, subject, p);
      assert AxisConflicts(registry, (subject, p));
    }
    forall now', again | IsRepaired(after, registry, ConflictAxes(after, registry), now', again)
      ensures again == after
    {
      assert forall id <- after :: again[id] == after[id];
    }
  }

  /** Facts on Multi or unregistered axes, and facts already retired, are left exactly as they were;
      no fact disappears and none changes its triple, its creation time or its validity. */
  lemma RepairTouchesOnlyLosers(before: Facts, registry: Registry, axes: set<Axis>, now: int, after: Facts, id: Id)
    requires IsRepaired(before, registry, axes, now, after) && axes <= ConflictAxes(before, registry)
    requires id in before
    ensures id in after
    ensures after[id] == before[id].(status := after[id].status, validUntil := after[id].validUntil)
    ensures MayStay(before[id], registry) ==> after[id] == before[id]
    ensures after[id] != before[id] ==>
      && after[id].validUntil == Some(now) && before[id].predicate' in registry
      && (registry[before[id].predicate'] == TemporalSingle ==> after[id].status == Superseded)
      && (registry[before[id].predicate'] == Single ==> after[id].status == Stale)
  {
  }
}
