/** The consolidation pass: exact dedup, near-duplicate merge, decay, and what is applied. */
module Consolidate {
  import opened Prelude
  import opened Sorting

  type Id = int

  // A stored timestamp: the rank of its text among strings, and the second it denotes, if it parses.
  datatype Stamp = Stamp(text: int, instant: Option<int>)
  datatype Meta = Meta(library: string, content: string, createdAt: Option<Stamp>, hash: Option<string>)
  datatype AccessStat = AccessStat(count: nat, last: Option<int>)
  datatype Options = Options(
    apply: bool, library: Option<string>, nearDupThreshold: real, decayDays: int,
    pruneCold: bool, archiveCold: bool)
  {
    function WithDefaults(): Options {
      this.(nearDupThreshold := if nearDupThreshold <= 0.0 then 0.97 else nearDupThreshold,
            decayDays := if decayDays < 0 then 180 else decayDays)
    }
  }
  datatype Report = Report(
    scanned: nat, exactDups: nat, nearDups: nat, coldCandidates: nat,
    coldPruned: nat, coldArchived: nat, applied: bool)

  type Points = map<Id, Meta>
  // The store's answer to "nearest neighbours of this point within its library", best first.
  type Neighbors = Id -> seq<(Id, real)>

  // ----- pure rules -----

  // What near-dup removal may give up for `kept`: the shorter content, or of equally long ones the later.
  predicate KeepsRicher(points: Points, dropped: Id, kept: Id)
    requires dropped in points && kept in points
  {
    var d, k := points[dropped], points[kept];
    || |d.content| < |k.content|
    || (|d.content| == |k.content|
        && (d.createdAt.None? || k.createdAt.None? || k.createdAt.value.text <= d.createdAt.value.text))
  }

  // What exact dedup may give up for `kept`: not the one with the earlier stamp; a missing one is earliest.
  predicate KeepsEarliest(points: Points, dropped: Id, kept: Id)
    requires dropped in points && kept in points
  {
    var d, k := points[dropped].createdAt, points[kept].createdAt;
    k.None? || (d.Some? && k.value.text <= d.value.text)
  }

  /** Of two near-duplicates, the id to drop: the shorter; on a tie the later; `b` where that decides nothing. */
  function ChooseDrop(points: Points, a: Id, b: Id): (drop: Id)
    requires a in points && b in points
    ensures drop == a || drop == b
    ensures KeepsRicher(points, drop, if drop == a then b else a)
    ensures KeepsRicher(points, b, a) ==> drop == b
  {
    var la, lb := |points[a].content|, |points[b].content|;
    if la != lb then (if la < lb then a else b)
    else match (points[a].createdAt, points[b].createdAt)
      case (Some(ca), Some(cb)) => if ca.text <= cb.text then b else a
      case _ => b
  }

  // `Option<String>` order: a missing stamp comes first.
  predicate Earlier(x: Option<Stamp>, y: Option<Stamp>) {
    y.Some? && (x.None? || x.value.text < y.value.text)
  }

  const SECONDS_PER_DAY := 86400.0

  function AtLeastZero(x: real): real {
    if x < 0.0 then 0.0 else x
  }

  ghost predicate IsLog10(log10: nat -> real) {
    forall n: nat :: 1 <= n ==> 0.0 <= log10(n)
  }

  /** Days since last relevance, damped by use; None when the creation time cannot be read. */
  function ColdnessScore(
      createdAt: Option<Stamp>, last: Option<int>, count: nat, now: int, log10: nat -> real): Option<real>
    requires IsLog10(log10)
  {
    if createdAt.None? || createdAt.value.instant.None? then None
    else
      var age := (now - createdAt.value.instant.value) as real / SECONDS_PER_DAY;
      if count == 0 then Some(AtLeastZero(age))
      else
        var since := AtLeastZero(if last.Some? then (now - last.value) as real / SECONDS_PER_DAY else age);
        Some(since / (1.0 + log10(1 + count)))
  }

  predicate IsColdScored(score: Option<real>, decayDays: int) {
    score.Some? && score.value >= decayDays as real
  }

  function StatOf(access: map<Id, AccessStat>, id: Id): AccessStat {
    if id in access then access[id] else AccessStat(0, None)
  }

  function ScoreOf(points: Points, access: map<Id, AccessStat>, now: int, log10: nat -> real, id: Id): Option<real>
    requires id in points && IsLog10(log10)
  {
    var stat := StatOf(access, id);
    ColdnessScore(points[id].createdAt, stat.last, stat.count, now, log10)
  }

  /** Pruning takes never-accessed points by age alone. The one difference from "age >= decayDays" is a
      cut-off of zero days, which also takes points created after `now`. */
  lemma PruneIsTheBinaryRule(
      points: Points, access: map<Id, AccessStat>, now: int, log10: nat -> real, decayDays: nat, id: Id)
    requires id in points && IsLog10(log10) && StatOf(access, id).count == 0
    ensures IsColdScored(ScoreOf(points, access, now, log10, id), decayDays) <==>
      && points[id].createdAt.Some? && points[id].createdAt.value.instant.Some?
      && (|| (now - points[id].createdAt.value.instant.value) as real / SECONDS_PER_DAY >= decayDays as real
          || decayDays == 0)
  {
  }

  /** The longer a used point has gone untouched the colder it is, and more use never makes it colder. */
  lemma ColdnessIsMonotone(
      createdAt: Option<Stamp>, last: int, staler: int, count: nat, busier: nat, now: int, log10: nat -> real)
    requires IsLog10(log10) && (forall m: nat, n: nat :: m <= n ==> log10(m) <= log10(n))
    requires createdAt.Some? && createdAt.value.instant.Some?
    requires staler <= last && 1 <= count <= busier
    ensures ColdnessScore(createdAt, Some(last), busier, now, log10).value
         <= ColdnessScore(createdAt, Some(staler), count, now, log10).value
  {
    var warm := AtLeastZero((now - last) as real / SECONDS_PER_DAY);
    var cool := AtLeastZero((now - staler) as real / SECONDS_PER_DAY);
    assert warm <= cool;
    DividedLess(warm, 1.0 + log10(1 + busier), cool, 1.0 + log10(1 + count));
  }

  lemma DividedLess(x: real, d: real, y: real, e: real)
    requires 0.0 <= x <= y && 0.0 < e <= d
    ensures x / d <= y / e
  {
    assert x / d <= x / e by {
      var q := x / d;
      assert q * d == x && 0.0 <= q;
      assert q * e <= q * d;
      assert (q * e) / e == q;
      assert q * e <= x;
    }
  }

  // ----- why an id was removed -----

  predicate SameHash(points: Points, a: Id, b: Id)
    requires a in points && b in points
  {
    points[a].hash.Some? && points[a].hash == points[b].hash
  }

  ghost predicate NearPair(neighbors: Neighbors, threshold: real, a: Id, b: Id) {
    || (exists s: real :: s >= threshold && (b, s) in neighbors(a))
    || (exists s: real :: s >= threshold && (a, s) in neighbors(b))
  }

  // `kept` may stand in for `dropped`.
  ghost predicate Covers(points: Points, neighbors: Neighbors, threshold: real, dropped: Id, kept: Id) {
    && dropped in points && kept in points
    && points[dropped].library == points[kept].library
    && (|| SameHash(points, dropped, kept)
        || (NearPair(neighbors, threshold, dropped, kept)
            && |points[dropped].content| <= |points[kept].content|))
  }

  // `exact` tells which stage made the removal.
  datatype Removal = Removal(dropped: Id, kept: Id, exact: bool)

  ghost predicate Justified(points: Points, neighbors: Neighbors, threshold: real, r: Removal) {
    && Covers(points, neighbors, threshold, r.dropped, r.kept)
    && (if r.exact then SameHash(points, r.dropped, r.kept) && KeepsEarliest(points, r.dropped, r.kept)
        else NearPair(neighbors, threshold, r.dropped, r.kept) && KeepsRicher(points, r.dropped, r.kept))
  }

  // The removals in the order they were made: each names a stand-in that was still there.
  ghost predicate ValidLog(points: Points, neighbors: Neighbors, threshold: real, log: seq<Removal>) {
    && (forall k :: 0 <= k < |log| ==> Justified(points, neighbors, threshold, log[k]))
    && (forall j, k :: 0 <= j <= k < |log| ==> log[j].dropped != log[k].kept)
    && (forall j, k :: 0 <= j < k < |log| ==> log[j].dropped != log[k].dropped)
  }

  ghost predicate AllExact(log: seq<Removal>) {
    forall k :: 0 <= k < |log| ==> log[k].exact
  }

  ghost predicate ExtendedByNear(before: seq<Removal>, log: seq<Removal>) {
    before <= log && forall k :: |before| <= k < |log| ==> !log[k].exact
  }

  ghost predicate LogOf(removed: set<Id>, log: seq<Removal>) {
    && (forall k :: 0 <= k < |log| ==> log[k].dropped in removed)
    && (forall id <- removed :: exists k :: 0 <= k < |log| && log[k].dropped == id)
  }

  // The store filters by library, so a neighbour it returns shares the queried point's library.
  ghost predicate NeighborsShareLibrary(points: Points, neighbors: Neighbors) {
    forall id <- points, p <- neighbors(id) :: p.0 in points ==> points[p.0].library == points[id].library
  }

  lemma LogRemoval(
      points: Points, neighbors: Neighbors, threshold: real, removed: set<Id>, log: seq<Removal>, r: Removal)
    requires ValidLog(points, neighbors, threshold, log) && LogOf(removed, log)
    requires Justified(points, neighbors, threshold, r)
    requires r.dropped != r.kept && r.dropped !in removed && r.kept !in removed
    ensures ValidLog(points, neighbors, threshold, log + [r])
    ensures LogOf(removed + {r.dropped}, log + [r])
  {
    var longer := log + [r];
    assert longer[|log|] == r;
    forall id | id in removed
      ensures exists k :: 0 <= k < |longer| && longer[k].dropped == id
    {
      var k :| 0 <= k < |log| && log[k].dropped == id;
      assert longer[k].dropped == id;
    }
  }

  // ----- stage 1: exact duplicates -----

  type GroupKey = (string, string)

  predicate HasKey(points: Points, id: Id, key: GroupKey)
    requires id in points
  {
    points[id].hash == Some(key.1) && points[id].library == key.0
  }

  ghost predicate GroupedBy(points: Points, ids: seq<Id>, groups: map<GroupKey, seq<Id>>) {
    && (forall id <- ids :: id in points)
    && (forall key <- groups :: Distinct(groups[key]) && groups[key] != [])
    && (forall key <- groups, id <- groups[key] :: id in ids && HasKey(points, id, key))
    && (forall id <- ids, key: GroupKey :: HasKey(points, id, key) ==> key in groups && id in groups[key])
  }

  function WithMember(groups: map<GroupKey, seq<Id>>, key: GroupKey, id: Id): map<GroupKey, seq<Id>> {
    groups[key := (if key in groups then groups[key] else []) + [id]]
  }

  lemma GroupedOneMore(points: Points, ids: seq<Id>, groups: map<GroupKey, seq<Id>>, id: Id)
    requires GroupedBy(points, ids, groups) && id in points && id !in ids
    ensures points[id].hash.None? ==> GroupedBy(points, ids + [id], groups)
    ensures points[id].hash.Some? ==>
      GroupedBy(points, ids + [id], WithMember(groups, (points[id].library, points[id].hash.value), id))
  {
  }

  method GroupByHash(points: Points, order: seq<Id>) returns (groups: map<GroupKey, seq<Id>>)
    requires Distinct(order) && forall id <- order :: id in points
    ensures GroupedBy(points, order, groups)
  {
    groups := map[];
    var i := 0;
    while i < |order|
      invariant 0 <= i <= |order|
      invariant GroupedBy(points, order[..i], groups)
    {
      var id := order[i];
      assert id !in order[..i] && id in order;
      assert order[..i + 1] == order[..i] + [id];
      GroupedOneMore(points, order[..i], groups, id);
      if points[id].hash.Some? {
        var key := (points[id].library, points[id].hash.value);
        groups := groups[key := (if key in groups then groups[key] else []) + [id]];
      }
      i := i + 1;
    }
    assert order[..i] == order;
  }

  // Every member listed before `at` has a later stamp.
  ghost predicate FirstEarliest(points: Points, ids: seq<Id>, at: nat)
    requires at < |ids|
  {
    ids[at] in points && forall k :: 0 <= k < at ==> ids[k] in points && !KeepsEarliest(points, ids[at], ids[k])
  }

  // The one member of a group that is kept: the first with the earliest stamp.
  method Canonical(points: Points, ids: seq<Id>) returns (canonical: Id)
    requires ids != [] && forall id <- ids :: id in points
    ensures canonical in ids
    ensures forall id <- ids :: KeepsEarliest(points, id, canonical)
    ensures exists at :: 0 <= at < |ids| && FirstEarliest(points, ids, at) && ids[at] == canonical
  {
    forall k | 0 <= k < |ids|
      ensures ids[k] in points
    {
      var id := ids[k];
      assert id in ids;
    }
    canonical := ids[0];
    ghost var at := 0;
    var i := 0;
    while i < |ids|
      invariant 0 <= i <= |ids| && canonical in ids
      invariant forall k :: 0 <= k < i ==> KeepsEarliest(points, ids[k], canonical)
      invariant 0 <= at < |ids| && (at < i || at == 0) && ids[at] == canonical
      invariant forall k :: 0 <= k < at ==> !KeepsEarliest(points, canonical, ids[k])
    {
      if Earlier(points[ids[i]].createdAt, points[canonical].createdAt) {
        canonical := ids[i];
        at := i;
      }
      i := i + 1;
    }
  }

  // A group that can be deduplicated: its members share library and hash.
  ghost predicate GoodGroup(points: Points, ids: seq<Id>) {
    && Distinct(ids) && ids != []
    && (forall id <- ids :: id in points)
    && (forall x <- ids, y <- ids :: SameHash(points, x, y) && points[x].library == points[y].library)
  }

  // What stage 1 achieves for one group.
  ghost predicate OneKept(points: Points, ids: seq<Id>, removed: set<Id>) {
    exists kept <- ids :: kept !in removed && KeptAlone(points, ids, removed, kept)
  }

  ghost predicate KeptAlone(points: Points, ids: seq<Id>, removed: set<Id>, kept: Id) {
    forall id <- ids ::
      && (id != kept ==> id in removed)
      && id in points && kept in points && KeepsEarliest(points, id, kept)
  }

  method DropOthers(
      points: Points, neighbors: Neighbors, threshold: real, ids: seq<Id>, canonical: Id,
      already: set<Id>, count: nat, ghost log0: seq<Removal>)
      returns (removed: set<Id>, exactDups: nat, ghost log: seq<Removal>)
    requires Distinct(ids) && canonical in ids && canonical in points
    requires forall id <- ids :: id in points && id !in already && KeepsEarliest(points, id, canonical)
    requires forall x <- ids, y <- ids :: SameHash(points, x, y) && points[x].library == points[y].library
    requires ValidLog(points, neighbors, threshold, log0) && LogOf(already, log0)
    requires AllExact(log0) && count == |log0|
    ensures removed == already + (Elems(ids) - {canonical})
    ensures ValidLog(points, neighbors, threshold, log) && LogOf(removed, log)
    ensures AllExact(log) && exactDups == |log|
  {
    removed, exactDups, log := already, count, log0;
    var i := 0;
    while i < |ids|
      invariant 0 <= i <= |ids|
      invariant removed == already + (Elems(ids[..i]) - {canonical})
      invariant ValidLog(points, neighbors, threshold, log) && LogOf(removed, log)
      invariant AllExact(log) && exactDups == |log|
    {
      var id := ids[i];
      assert id !in ids[..i];
      assert ids[..i + 1] == ids[..i] + [id];
      if id != canonical {
        LogRemoval(points, neighbors, threshold, removed, log, Removal(id, canonical, true));
        log := log + [Removal(id, canonical, true)];
        removed := removed + {id};
        exactDups := exactDups + 1;
      }
      i := i + 1;
    }
    assert ids[..i] == ids;
  }

  method DedupGroup(
      points: Points, neighbors: Neighbors, threshold: real, ids: seq<Id>,
      already: set<Id>, count: nat, ghost log0: seq<Removal>)
      returns (removed: set<Id>, exactDups: nat, ghost log: seq<Removal>)
    requires GoodGroup(points, ids) && already !! Elems(ids)
    requires ValidLog(points, neighbors, threshold, log0) && LogOf(already, log0)
    requires AllExact(log0) && count == |log0|
    ensures OneKept(points, ids, removed)
    ensures already <= removed <= already + Elems(ids)
    ensures ValidLog(points, neighbors, threshold, log) && LogOf(removed, log)
    ensures AllExact(log) && exactDups == |log|
  {
    removed, exactDups, log := already, count, log0;
    assert forall id <- ids :: id in Elems(ids);
    if |ids| < 2 {
      var kept := ids[0];
      assert kept in ids && forall id <- ids :: id == kept;
      assert KeptAlone(points, ids, removed, kept);
      return;
    }
    var canonical := Canonical(points, ids);
    removed, exactDups, log := DropOthers(points, neighbors, threshold, ids, canonical, removed, exactDups, log);
    assert KeptAlone(points, ids, removed, canonical);
  }

  ghost function Members(groups: seq<seq<Id>>): set<Id> {
    set k, id | 0 <= k < |groups| && id in groups[k] :: id
  }

  ghost predicate PairwiseDisjoint(groups: seq<seq<Id>>) {
    forall j, k :: 0 <= j < k < |groups| ==> Elems(groups[j]) !! Elems(groups[k])
  }

  lemma OtherGroupsKept(points: Points, ids: seq<Id>, before: set<Id>, after: set<Id>, other: seq<Id>)
    requires OneKept(points, ids, before)
    requires before <= after <= before + Elems(other) && Elems(ids) !! Elems(other)
    ensures OneKept(points, ids, after)
  {
    var kept :| kept in ids && kept !in before && KeptAlone(points, ids, before, kept);
    assert kept in Elems(ids) && KeptAlone(points, ids, after, kept);
  }

  method DedupGroups(points: Points, neighbors: Neighbors, threshold: real, groups: seq<seq<Id>>)
      returns (removed: set<Id>, exactDups: nat, ghost log: seq<Removal>)
    requires PairwiseDisjoint(groups) && forall k :: 0 <= k < |groups| ==> GoodGroup(points, groups[k])
    ensures forall k :: 0 <= k < |groups| ==> OneKept(points, groups[k], removed)
    ensures removed <= Members(groups)
    ensures ValidLog(points, neighbors, threshold, log) && LogOf(removed, log)
    ensures AllExact(log) && exactDups == |log|
  {
    removed, exactDups, log := {}, 0, [];
    var i := 0;
    while i < |groups|
      invariant 0 <= i <= |groups|
      invariant forall k :: 0 <= k < i ==> OneKept(points, groups[k], removed)
      invariant forall k :: i <= k < |groups| ==> removed !! Elems(groups[k])
      invariant removed <= Members(groups)
      invariant ValidLog(points, neighbors, threshold, log) && LogOf(removed, log)
      invariant AllExact(log) && exactDups == |log|
    {
      ghost var before := removed;
      removed, exactDups, log := DedupGroup(points, neighbors, threshold, groups[i], removed, exactDups, log);
      forall id | id in Elems(groups[i])
        ensures id in Members(groups)
      {
        assert id in groups[i];
      }
      forall k | 0 <= k < i
        ensures OneKept(points, groups[k], removed)
      {
        OtherGroupsKept(points, groups[k], before, removed, groups[i]);
      }
      i := i + 1;
    }
  }

  lemma GroupIsGood(points: Points, order: seq<Id>, groups: map<GroupKey, seq<Id>>, key: GroupKey)
    requires GroupedBy(points, order, groups) && key in groups
    ensures GoodGroup(points, groups[key]) && Elems(groups[key]) <= Elems(order)
  {
    assert forall id <- groups[key] :: HasKey(points, id, key) && id in order;
    forall id | id in Elems(groups[key])
      ensures id in Elems(order)
    {
      assert id in groups[key];
    }
  }

  lemma GroupsAreDisjoint(
      points: Points, order: seq<Id>, groups: map<GroupKey, seq<Id>>, x: GroupKey, y: GroupKey)
    requires GroupedBy(points, order, groups) && x in groups && y in groups && x != y
    ensures Elems(groups[x]) !! Elems(groups[y])
  {
    forall id | id in Elems(groups[x])
      ensures id !in Elems(groups[y])
    {
      assert id in groups[x] && HasKey(points, id, x);
    }
  }

  function ValuesOf(groups: map<GroupKey, seq<Id>>, keys: seq<GroupKey>): (values: seq<seq<Id>>)
    requires forall k :: 0 <= k < |keys| ==> keys[k] in groups
    ensures |values| == |keys| && forall k :: 0 <= k < |keys| ==> values[k] == groups[keys[k]]
  {
    seq(|keys|, k requires 0 <= k < |keys| && keys[k] in groups => groups[keys[k]])
  }

  lemma ValuesAreGood(
      points: Points, order: seq<Id>, groups: map<GroupKey, seq<Id>>, keys: seq<GroupKey>)
    requires GroupedBy(points, order, groups) && Distinct(keys)
    requires forall k :: 0 <= k < |keys| ==> keys[k] in groups
    ensures var values := ValuesOf(groups, keys);
      && PairwiseDisjoint(values)
      && forall k :: 0 <= k < |values| ==> GoodGroup(points, values[k]) && Elems(values[k]) <= Elems(order)
  {
    var values := ValuesOf(groups, keys);
    forall k | 0 <= k < |values|
      ensures GoodGroup(points, values[k]) && Elems(values[k]) <= Elems(order)
    {
      GroupIsGood(points, order, groups, keys[k]);
    }
    forall j, k | 0 <= j < k < |values|
      ensures Elems(values[j]) !! Elems(values[k])
    {
      GroupsAreDisjoint(points, order, groups, keys[j], keys[k]);
    }
  }

  method ExactDedup(points: Points, neighbors: Neighbors, threshold: real, order: seq<Id>)
      returns (removed: set<Id>, exactDups: nat, ghost groups: map<GroupKey, seq<Id>>, ghost log: seq<Removal>)
    requires Distinct(order) && forall id <- order :: id in points
    ensures GroupedBy(points, order, groups)
    ensures forall key <- groups :: OneKept(points, groups[key], removed)
    ensures removed <= Elems(order)
    ensures ValidLog(points, neighbors, threshold, log) && LogOf(removed, log)
    ensures AllExact(log) && exactDups == |log|
  {
    var g := GroupByHash(points, order);
    groups := g;
    var keys := ListSet(g.Keys);
    forall k | 0 <= k < |keys|
      ensures keys[k] in g
    {
      assert keys[k] in Elems(keys);
    }
    ValuesAreGood(points, order, g, keys);
    var values := ValuesOf(g, keys);
    removed, exactDups, log := DedupGroups(points, neighbors, threshold, values);
    forall key | key in g
      ensures OneKept(points, g[key], removed)
    {
      assert key in Elems(keys);
      var k :| 0 <= k < |keys| && keys[k] == key;
      assert values[k] == g[key];
    }
    forall id | id in Members(values)
      ensures id in Elems(order)
    {
      var k :| 0 <= k < |values| && id in values[k];
      assert id in Elems(values[k]);
    }
  }

  // ----- stage 2: near-duplicates -----

  // Every listed neighbour before the first one below the threshold is the point itself, gone, or unknown.
  ghost predicate Cleaned(points: Points, neighbors: Neighbors, threshold: real, removed: set<Id>, id: Id) {
    forall k :: 0 <= k < |neighbors(id)| && (forall j :: 0 <= j <= k ==> neighbors(id)[j].1 >= threshold) ==>
      neighbors(id)[k].0 == id || neighbors(id)[k].0 in removed || neighbors(id)[k].0 !in points
  }

  // Stage 2 has gone from `already` to `removed`, within the given libraries.
  ghost predicate Progress(
      points: Points, libraries: set<string>, already: set<Id>, log0: seq<Removal>, removed: set<Id>, log: seq<Removal>)
  {
    && already <= removed && ExtendedByNear(log0, log)
    && forall x <- removed - already :: x in points && points[x].library in libraries
  }

  lemma ProgressComposes(
      points: Points, libraries: set<string>, a: set<Id>, log0: seq<Removal>, b: set<Id>, log1: seq<Removal>,
      c: set<Id>, log2: seq<Removal>, more: set<string>)
    requires Progress(points, libraries, a, log0, b, log1) && Progress(points, more, b, log1, c, log2)
    requires more <= libraries
    ensures Progress(points, libraries, a, log0, c, log2)
  {
    assert forall x <- c - a :: x in b - a || x in c - b;
  }

  method MergeNeighbors(
      points: Points, neighbors: Neighbors, threshold: real, id: Id,
      already: set<Id>, count: nat, ghost log0: seq<Removal>)
      returns (removed: set<Id>, nearDups: nat, ghost log: seq<Removal>)
    requires id in points && id !in already && NeighborsShareLibrary(points, neighbors)
    requires ValidLog(points, neighbors, threshold, log0) && LogOf(already, log0)
    ensures Progress(points, {points[id].library}, already, log0, removed, log)
    ensures ValidLog(points, neighbors, threshold, log) && LogOf(removed, log)
    ensures nearDups - count == |log| - |log0|
    ensures GoneOrCleaned(points, neighbors, threshold, removed, id)
  {
    removed, nearDups, log := already, count, log0;
    var near := neighbors(id);
    var i := 0;
    while i < |near|
      invariant 0 <= i <= |near| && id !in removed
      invariant Progress(points, {points[id].library}, already, log0, removed, log)
      invariant ValidLog(points, neighbors, threshold, log) && LogOf(removed, log)
      invariant nearDups - count == |log| - |log0|
      invariant forall k :: 0 <= k < i ==> near[k].0 == id || near[k].0 in removed || near[k].0 !in points
    {
      var (nid, score) := near[i];
      assert near[i] in near;
      if score < threshold {
        return;
      }
      if nid !in removed && nid != id && nid in points {
        var drop := ChooseDrop(points, id, nid);
        var kept := if drop == id then nid else id;
        assert (nid, score) in neighbors(id) && NearPair(neighbors, threshold, drop, kept);
        LogRemoval(points, neighbors, threshold, removed, log, Removal(drop, kept, false));
        log := log + [Removal(drop, kept, false)];
        removed := removed + {drop};
        nearDups := nearDups + 1;
        if drop == id {
          return;
        }
      }
      i := i + 1;
    }
  }

  ghost predicate GoneOrCleaned(
      points: Points, neighbors: Neighbors, threshold: real, removed: set<Id>, id: Id) {
    id in removed || Cleaned(points, neighbors, threshold, removed, id)
  }

  ghost function Libraries(points: Points, order: seq<Id>): set<string>
    requires forall id <- order :: id in points
  {
    set id | id in order :: points[id].library
  }

  lemma StillCleaned(
      points: Points, neighbors: Neighbors, threshold: real, before: set<Id>, after: set<Id>, ids: seq<Id>, n: nat)
    requires before <= after && n <= |ids|
    requires forall k :: 0 <= k < n ==> GoneOrCleaned(points, neighbors, threshold, before, ids[k])
    ensures forall k :: 0 <= k < n ==> GoneOrCleaned(points, neighbors, threshold, after, ids[k])
  {
    forall k | 0 <= k < n
      ensures GoneOrCleaned(points, neighbors, threshold, after, ids[k])
    {
      assert GoneOrCleaned(points, neighbors, threshold, before, ids[k]);
    }
  }

  method NearDedup(
      points: Points, neighbors: Neighbors, threshold: real, order: seq<Id>,
      already: set<Id>, ghost log0: seq<Removal>)
      returns (removed: set<Id>, nearDups: nat, ghost log: seq<Removal>)
    requires NeighborsShareLibrary(points, neighbors) && forall id <- order :: id in points
    requires ValidLog(points, neighbors, threshold, log0) && LogOf(already, log0)
    ensures Progress(points, Libraries(points, order), already, log0, removed, log)
    ensures ValidLog(points, neighbors, threshold, log) && LogOf(removed, log)
    ensures nearDups == |log| - |log0|
    ensures forall k :: 0 <= k < |order| ==> GoneOrCleaned(points, neighbors, threshold, removed, order[k])
  {
    removed, nearDups, log := already, 0, log0;
    var i := 0;
    while i < |order|
      invariant 0 <= i <= |order|
      invariant Progress(points, Libraries(points, order), already, log0, removed, log)
      invariant ValidLog(points, neighbors, threshold, log) && LogOf(removed, log)
      invariant nearDups == |log| - |log0|
      invariant forall k :: 0 <= k < i ==> GoneOrCleaned(points, neighbors, threshold, removed, order[k])
    {
      var id := order[i];
      assert id in order;
      if id !in removed {
        ghost var before, log1 := removed, log;
        removed, nearDups, log := MergeNeighbors(points, neighbors, threshold, id, removed, nearDups, log);
        ProgressComposes(points, Libraries(points, order), already, log0, before, log1, removed, log,
                         {points[id].library});
        StillCleaned(points, neighbors, threshold, before, removed, order, i);
      }
      i := i + 1;
    }
  }

  // ----- stage 3: decay -----

  ghost predicate IsCold(
      points: Points, access: map<Id, AccessStat>, now: int, log10: nat -> real, decayDays: int, id: Id)
    requires id in points && IsLog10(log10)
  {
    IsColdScored(ScoreOf(points, access, now, log10, id), decayDays)
  }

  ghost predicate ScoreAtLeast(
      points: Points, access: map<Id, AccessStat>, now: int, log10: nat -> real, x: Id, y: Id)
    requires IsLog10(log10)
  {
    && x in points && y in points
    && var sx, sy := ScoreOf(points, access, now, log10, x), ScoreOf(points, access, now, log10, y);
    sx.Some? && sy.Some? && sx.value >= sy.value
  }

  predicate ColderFirst(x: (Id, real), y: (Id, real)) {
    x.1 >= y.1
  }

  function Ids(scored: seq<(Id, real)>): (ids: seq<Id>)
    ensures |ids| == |scored| && forall k :: 0 <= k < |ids| ==> ids[k] == scored[k].0
  {
    seq(|scored|, k requires 0 <= k < |scored| => scored[k].0)
  }

  // The rule in the open: a datable point is cold when its last access, or for want of one its creation,
  // lies the cut-off of days back, stretched by the logarithm of its use.
  ghost predicate ColdByRule(
      points: Points, access: map<Id, AccessStat>, now: int, log10: nat -> real, decayDays: int, id: Id)
  {
    && id in points && points[id].createdAt.Some? && points[id].createdAt.value.instant.Some?
    && var created := points[id].createdAt.value.instant.value;
    || decayDays <= 0
    || (if id in access && access[id].count > 0 then
          var relevant := if access[id].last.Some? then access[id].last.value else created;
          (now - relevant) as real >= 86400.0 * decayDays as real * (1.0 + log10(1 + access[id].count))
        else now - created >= 86400 * decayDays)
  }

  /** The score and its cut-off decide exactly as the rule says. */
  lemma ColdExactly(
      points: Points, access: map<Id, AccessStat>, now: int, log10: nat -> real, decayDays: int, id: Id)
    requires IsLog10(log10) && id in points
    ensures IsCold(points, access, now, log10, decayDays, id) <==> ColdByRule(points, access, now, log10, decayDays, id)
  {
    var m, stat := points[id], StatOf(access, id);
    if m.createdAt.Some? && m.createdAt.value.instant.Some? {
      var created := m.createdAt.value.instant.value;
      if stat.count == 0 {
        IdleDays(now - created, 1.0, decayDays);
      } else {
        IdleDays(now - (if stat.last.Some? then stat.last.value else created), 1.0 + log10(1 + stat.count), decayDays);
      }
    }
  }

  // Seconds since a point was last relevant, and what its use divides them by.
  ghost function Idle(points: Points, access: map<Id, AccessStat>, now: int, id: Id): int
    requires id in points && points[id].createdAt.Some? && points[id].createdAt.value.instant.Some?
  {
    var created := points[id].createdAt.value.instant.value;
    var relevant :=
      if id in access && access[id].count > 0 && access[id].last.Some? then access[id].last.value else created;
    if now < relevant then 0 else now - relevant
  }

  ghost function Damp(access: map<Id, AccessStat>, log10: nat -> real, id: Id): (damp: real)
    requires IsLog10(log10)
    ensures damp >= 1.0
  {
    if id in access && access[id].count > 0 then 1.0 + log10(1 + access[id].count) else 1.0
  }

  /** What "coldest first" means: by idle days over use. */
  lemma ColderExactly(points: Points, access: map<Id, AccessStat>, now: int, log10: nat -> real, x: Id, y: Id)
    requires IsLog10(log10) && x in points && y in points
    requires points[x].createdAt.Some? && points[x].createdAt.value.instant.Some?
    requires points[y].createdAt.Some? && points[y].createdAt.value.instant.Some?
    ensures ScoreAtLeast(points, access, now, log10, x, y)
       <==> Idle(points, access, now, x) as real / 86400.0 / Damp(access, log10, x)
            >= Idle(points, access, now, y) as real / 86400.0 / Damp(access, log10, y)
  {
    ScoreInTheOpen(points, access, now, log10, x);
    ScoreInTheOpen(points, access, now, log10, y);
  }

  lemma ScoreInTheOpen(points: Points, access: map<Id, AccessStat>, now: int, log10: nat -> real, id: Id)
    requires IsLog10(log10) && id in points
    requires points[id].createdAt.Some? && points[id].createdAt.value.instant.Some?
    ensures ScoreOf(points, access, now, log10, id)
         == Some(Idle(points, access, now, id) as real / 86400.0 / Damp(access, log10, id))
  {
  }

  lemma IdleDays(idle: int, damp: real, days: int)
    requires damp >= 1.0
    ensures AtLeastZero(idle as real / 86400.0) / damp >= days as real
       <==> days <= 0 || idle as real >= 86400.0 * days as real * damp
  {
    var x := AtLeastZero(idle as real / 86400.0);
    var q := x / damp;
    assert q * damp == x && q >= 0.0;
    if days > 0 {
      var bound := days as real * damp;
      assert bound > 0.0;
      assert (q - days as real) * damp == x - bound;
      assert x >= bound <==> idle as real >= 86400.0 * bound;
    }
  }

  ghost function ColdIds(
      points: Points, access: map<Id, AccessStat>, now: int, log10: nat -> real, decayDays: int, ids: set<Id>): set<Id>
  {
    set id | id in ids && ColdByRule(points, access, now, log10, decayDays, id)
  }

  ghost function NeverAccessed(access: map<Id, AccessStat>, ids: set<Id>): set<Id> {
    set id | id in ids && (id in access ==> access[id].count == 0)
  }

  // `p` is the entry a cold id contributes.
  ghost predicate ColdEntry(
      points: Points, access: map<Id, AccessStat>, now: int, log10: nat -> real, decayDays: int, p: (Id, real))
    requires IsLog10(log10)
  {
    && p.0 in points && IsCold(points, access, now, log10, decayDays, p.0)
    && p.1 == ScoreOf(points, access, now, log10, p.0).value
  }

  method ScoreAll(
      points: Points, order: seq<Id>, removed: set<Id>, access: map<Id, AccessStat>,
      now: int, log10: nat -> real, decayDays: int)
      returns (scored: seq<(Id, real)>, coldPrune: seq<Id>)
    requires Distinct(order) && (forall k :: 0 <= k < |order| ==> order[k] in points) && IsLog10(log10)
    ensures forall p :: p in scored <==>
        p.0 in order && p.0 !in removed && ColdEntry(points, access, now, log10, decayDays, p)
    ensures forall id :: id in coldPrune <==>
        && id in order && id !in removed && StatOf(access, id).count == 0
        && id in points && IsCold(points, access, now, log10, decayDays, id)
    ensures Distinct(scored) && Distinct(coldPrune)
  {
    scored, coldPrune := [], [];
    var i := 0;
    while i < |order|
      invariant 0 <= i <= |order|
      invariant Distinct(scored) && Distinct(coldPrune)
      invariant forall p :: p in scored <==>
          p.0 in order[..i] && p.0 !in removed && ColdEntry(points, access, now, log10, decayDays, p)
      invariant forall id :: id in coldPrune <==>
          && id in order[..i] && id !in removed && StatOf(access, id).count == 0
          && id in points && IsCold(points, access, now, log10, decayDays, id)
    {
      var id := order[i];
      assert order[..i + 1] == order[..i] + [id] && id !in order[..i];
      if id !in removed {
        var stat := StatOf(access, id);
        var score := ColdnessScore(points[id].createdAt, stat.last, stat.count, now, log10);
        if IsColdScored(score, decayDays) {
          scored := scored + [(id, score.value)];
          if stat.count == 0
             && IsColdScored(ColdnessScore(points[id].createdAt, None, 0, now, log10), decayDays) {
            coldPrune := coldPrune + [id];
          }
        }
      }
      i := i + 1;
    }
    assert order[..i] == order;
  }

  method Decay(
      points: Points, order: seq<Id>, removed: set<Id>, access: map<Id, AccessStat>,
      now: int, log10: nat -> real, decayDays: int)
      returns (cold: seq<Id>, coldPrune: seq<Id>)
    requires Distinct(order) && (forall k :: 0 <= k < |order| ==> order[k] in points) && IsLog10(log10)
    ensures Elems(cold) == ColdIds(points, access, now, log10, decayDays, Elems(order) - removed)
    ensures Elems(coldPrune) == NeverAccessed(access, Elems(cold))
    ensures |cold| == |Elems(cold)| && |coldPrune| == |Elems(coldPrune)|
    ensures forall i, j :: 0 <= i < j < |cold| ==>
        ScoreAtLeast(points, access, now, log10, cold[i], cold[j])
  {
    var scored;
    scored, coldPrune := ScoreAll(points, order, removed, access, now, log10, decayDays);
    var ranked := Sort(scored, ColderFirst);
    cold := Ids(ranked);
    SortSorts(scored, ColderFirst);
    SortKeepsMembers(scored, ColderFirst);
    SortKeepsDistinct(scored, ColderFirst);
    RankedIds(points, order, removed, access, now, log10, decayDays, ranked);
    DistinctSize(cold);
    DistinctSize(coldPrune);
    ColdSets(points, order, removed, access, now, log10, decayDays, cold, coldPrune);
  }

  lemma ColdSets(
      points: Points, order: seq<Id>, removed: set<Id>, access: map<Id, AccessStat>,
      now: int, log10: nat -> real, decayDays: int, cold: seq<Id>, coldPrune: seq<Id>)
    requires IsLog10(log10)
    requires forall id :: id in cold <==>
        && id in order && id !in removed
        && id in points && IsCold(points, access, now, log10, decayDays, id)
    requires forall id :: id in coldPrune <==>
        && id in order && id !in removed && StatOf(access, id).count == 0
        && id in points && IsCold(points, access, now, log10, decayDays, id)
    ensures Elems(cold) == ColdIds(points, access, now, log10, decayDays, Elems(order) - removed)
    ensures Elems(coldPrune) == NeverAccessed(access, Elems(cold))
  {
    forall id
      ensures id in Elems(cold) <==> id in ColdIds(points, access, now, log10, decayDays, Elems(order) - removed)
      ensures id in Elems(coldPrune) <==> id in NeverAccessed(access, Elems(cold))
    {
      assert id in Elems(cold) <==> id in cold;
      assert id in Elems(coldPrune) <==> id in coldPrune;
      assert id in Elems(order) <==> id in order;
      if id in points {
        ColdExactly(points, access, now, log10, decayDays, id);
      }
    }
  }

  lemma RankedIds(
      points: Points, order: seq<Id>, removed: set<Id>, access: map<Id, AccessStat>,
      now: int, log10: nat -> real, decayDays: int, ranked: seq<(Id, real)>)
    requires IsLog10(log10) && Sorted(ranked, ColderFirst) && Distinct(ranked)
    requires forall k :: 0 <= k < |order| ==> order[k] in points
    requires forall p :: p in ranked <==>
        p.0 in order && p.0 !in removed && ColdEntry(points, access, now, log10, decayDays, p)
    ensures forall id :: id in Ids(ranked) <==>
        && id in order && id !in removed
        && id in points && IsCold(points, access, now, log10, decayDays, id)
    ensures Distinct(Ids(ranked))
    ensures forall i, j :: 0 <= i < j < |ranked| ==>
        ScoreAtLeast(points, access, now, log10, Ids(ranked)[i], Ids(ranked)[j])
  {
    forall k | 0 <= k < |ranked|
      ensures ColdEntry(points, access, now, log10, decayDays, ranked[k])
      ensures ranked[k].0 in order && ranked[k].0 !in removed
    {
      var p := ranked[k];
      assert p in ranked;
    }
    forall id | id in order && id !in removed && id in points && IsCold(points, access, now, log10, decayDays, id)
      ensures id in Ids(ranked)
    {
      var p := (id, ScoreOf(points, access, now, log10, id).value);
      assert p in ranked;
      var k :| 0 <= k < |ranked| && ranked[k] == p;
      assert Ids(ranked)[k] == id;
    }
    forall i, j | 0 <= i < j < |ranked|
      ensures ScoreAtLeast(points, access, now, log10, Ids(ranked)[i], Ids(ranked)[j])
    {
      assert ColderFirst(ranked[i], ranked[j]);
    }
  }

  // ----- the pass -----

  ghost function Scope(points: Points, library: Option<string>): set<Id> {
    set id | id in points && (library.None? || points[id].library == library.value)
  }

  ghost predicate NoSharedHash(points: Points, kept: set<Id>)
    requires kept <= points.Keys
  {
    forall x <- kept, y <- kept :: SameHash(points, x, y) && points[x].library == points[y].library ==> x == y
  }

  // What stages 1 and 2 leave behind: `exactDups` removals by hash, then `nearDups` by nearness.
  ghost predicate Deduplicated(
      points: Points, neighbors: Neighbors, threshold: real, scope: set<Id>,
      removed: set<Id>, exactDups: nat, nearDups: nat, log: seq<Removal>)
  {
    && removed <= scope <= points.Keys
    && ValidLog(points, neighbors, threshold, log) && LogOf(removed, log)
    && |log| == exactDups + nearDups && (forall k :: 0 <= k < |log| ==> (log[k].exact <==> k < exactDups))
    && NoSharedHash(points, scope - removed)
    && (forall id <- scope :: GoneOrCleaned(points, neighbors, threshold, removed, id))
  }

  lemma SurvivorsShareNoHash(
      points: Points, order: seq<Id>, groups: map<GroupKey, seq<Id>>, exact: set<Id>, removed: set<Id>)
    requires GroupedBy(points, order, groups) && forall key <- groups :: OneKept(points, groups[key], exact)
    requires exact <= removed && Elems(order) <= points.Keys
    ensures NoSharedHash(points, Elems(order) - removed)
  {
    forall x, y | x in Elems(order) - removed && y in Elems(order) - removed
                  && SameHash(points, x, y) && points[x].library == points[y].library
      ensures x == y
    {
      var key := (points[x].library, points[x].hash.value);
      assert HasKey(points, x, key) && HasKey(points, y, key);
      var kept :| kept in groups[key] && kept !in exact && KeptAlone(points, groups[key], exact, kept);
    }
  }

  method Dedup(points: Points, neighbors: Neighbors, opts: Options)
      returns (order: seq<Id>, removed: set<Id>, exactDups: nat, nearDups: nat, ghost log: seq<Removal>)
    requires NeighborsShareLibrary(points, neighbors)
    ensures Distinct(order) && Elems(order) == Scope(points, opts.library)
    ensures Deduplicated(points, neighbors, opts.nearDupThreshold, Elems(order), removed, exactDups, nearDups, log)
  {
    order := ListSet(set id | id in points && (opts.library.None? || points[id].library == opts.library.value));
    forall k | 0 <= k < |order|
      ensures order[k] in points
    {
      assert order[k] in Elems(order);
    }
    assert forall id <- order :: id in Elems(order);
    ghost var groups;
    removed, exactDups, groups, log := ExactDedup(points, neighbors, opts.nearDupThreshold, order);
    ghost var exact := removed;
    removed, nearDups, log := NearDedup(points, neighbors, opts.nearDupThreshold, order, removed, log);
    SurvivorsShareNoHash(points, order, groups, exact, removed);
    assert removed <= Elems(order) by {
      forall x | x in removed - exact
        ensures x in Elems(order)
      {
        var id :| id in order && points[x].library == points[id].library;
        assert id in Elems(order);
      }
    }
    forall id | id in Elems(order)
      ensures GoneOrCleaned(points, neighbors, opts.nearDupThreshold, removed, id)
    {
      var k :| 0 <= k < |order| && order[k] == id;
    }
  }

  class MemoryStore {
    var points: Points
    var archived: set<Id>

    constructor (existing: Points)
      ensures points == existing && archived == {}
    {
      points, archived := existing, {};
    }

    // The effects of `run`: duplicates are deleted; cold points are archived, else pruned, else left.
    method Run(
        raw: Options, neighbors: Neighbors, access: map<Id, AccessStat>, now: int, log10: nat -> real)
        returns (report: Report, cold: seq<Id>, coldPrune: seq<Id>, removed: set<Id>, ghost log: seq<Removal>)
      requires NeighborsShareLibrary(points, neighbors) && IsLog10(log10)
      modifies this
      ensures var all, scope := old(points), Scope(old(points), raw.library);
        var threshold := if raw.nearDupThreshold <= 0.0 then 0.97 else raw.nearDupThreshold;
        var days := if raw.decayDays < 0 then 180 else raw.decayDays;
        && report.scanned == |scope| && report.applied == raw.apply
        && Deduplicated(all, neighbors, threshold, scope, removed, report.exactDups, report.nearDups, log)
        && Elems(cold) == ColdIds(all, access, now, log10, days, scope - removed)
        && Elems(coldPrune) == NeverAccessed(access, Elems(cold))
        && report.coldCandidates == |Elems(cold)| == |cold|
        && (forall i, j :: 0 <= i < j < |cold| ==> ScoreAtLeast(all, access, now, log10, cold[i], cold[j]))
      ensures !raw.apply ==> points == old(points) && archived == old(archived)
      ensures !raw.apply ==> report.coldPruned == report.coldArchived == 0
      ensures raw.apply ==> points == old(points) - removed
                                     - (if raw.pruneCold && !raw.archiveCold then Elems(coldPrune) else {})
      ensures raw.apply ==> archived == old(archived) + (if raw.archiveCold then Elems(cold) else {})
      ensures raw.apply ==> report.coldArchived == (if raw.archiveCold then |Elems(cold)| else 0)
      ensures raw.apply ==> report.coldPruned == if raw.pruneCold && !raw.archiveCold then |Elems(coldPrune)| else 0
    {
      var opts := raw.WithDefaults();
      var order, exactDups, nearDups;
      order, removed, exactDups, nearDups, log := Dedup(points, neighbors, opts);
      DistinctSize(order);
      forall k | 0 <= k < |order|
        ensures order[k] in points
      {
        assert order[k] in Elems(order);
      }
      cold, coldPrune := Decay(points, order, removed, access, now, log10, opts.decayDays);
      report := Report(|order|, exactDups, nearDups, |cold|, 0, 0, opts.apply);
      assert forall id :: id in order <==> id in Elems(order);
      if opts.apply {
        points := points - removed;
        if opts.archiveCold {
          archived := archived + Elems(cold);
          report := report.(coldArchived := |cold|);
        } else if opts.pruneCold {
          report := report.(coldPruned := |coldPrune|);
          points := points - Elems(coldPrune);
        }
      }
    }
  }

  // ----- what deduplication guarantees -----

  /** The counters add up to the number of removed ids: nothing is dropped or counted twice. */
  lemma {:induction false} RemovedAreCountedOnce(
      points: Points, neighbors: Neighbors, threshold: real, removed: set<Id>, log: seq<Removal>)
    requires ValidLog(points, neighbors, threshold, log) && LogOf(removed, log)
    ensures |removed| == |log|
  {
    if log == [] {
      assert forall id :: id !in removed;
    } else {
      var init, last := log[..|log| - 1], log[|log| - 1].dropped;
      forall id | id in removed - {last}
        ensures exists k :: 0 <= k < |init| && init[k].dropped == id
      {
        var k :| 0 <= k < |log| && log[k].dropped == id;
        assert init[k].dropped == id;
      }
      assert forall k :: 0 <= k < |init| ==> init[k] == log[k];
      RemovedAreCountedOnce(points, neighbors, threshold, removed - {last}, init);
    }
  }

  // Each point on the path is covered by the next.
  ghost predicate CoverPath(points: Points, neighbors: Neighbors, threshold: real, path: seq<Id>) {
    && path != []
    && forall i :: 0 < i < |path| ==> Covers(points, neighbors, threshold, path[i - 1], path[i])
  }

  lemma {:induction false} LogReachesSurvivor(
      points: Points, neighbors: Neighbors, threshold: real, removed: set<Id>, log: seq<Removal>, k: nat)
      returns (path: seq<Id>)
    requires ValidLog(points, neighbors, threshold, log) && LogOf(removed, log) && k < |log|
    ensures CoverPath(points, neighbors, threshold, path)
    ensures |path| > 1 && path[0] == log[k].dropped && path[|path| - 1] !in removed
    decreases |log| - k
  {
    var kept := log[k].kept;
    if kept !in removed {
      path := [log[k].dropped, kept];
    } else {
      var later :| 0 <= later < |log| && log[later].dropped == kept;
      var rest := LogReachesSurvivor(points, neighbors, threshold, removed, log, later);
      path := [log[k].dropped] + rest;
    }
  }

  /** No last copy is lost: from every removed id a finite chain of equal-hash or above-threshold
      pairs, each kept side no shorter, leads to an id that survives both stages. */
  lemma RemovedReachesSurvivor(
      points: Points, neighbors: Neighbors, threshold: real, scope: set<Id>,
      removed: set<Id>, exactDups: nat, nearDups: nat, log: seq<Removal>, id: Id)
      returns (path: seq<Id>)
    requires Deduplicated(points, neighbors, threshold, scope, removed, exactDups, nearDups, log) && id in removed
    ensures CoverPath(points, neighbors, threshold, path) && path[0] == id
    ensures path[|path| - 1] in points && path[|path| - 1] !in removed
  {
    var k :| 0 <= k < |log| && log[k].dropped == id;
    path := LogReachesSurvivor(points, neighbors, threshold, removed, log, k);
    assert Covers(points, neighbors, threshold, path[|path| - 2], path[|path| - 1]);
  }

  // The stored hash is the hash of the stored content, and the hash is injective.
  ghost predicate HashFaithful(points: Points) {
    forall x <- points, y <- points :: SameHash(points, x, y) ==> points[x].content == points[y].content
  }

  /** Along a chain the library never changes and the content never gets shorter. */
  lemma {:induction false} ChainKeepsLibraryAndLength(
      points: Points, neighbors: Neighbors, threshold: real, path: seq<Id>, i: nat, j: nat)
    requires CoverPath(points, neighbors, threshold, path) && HashFaithful(points)
    requires i <= j < |path| && path[i] in points && path[j] in points
    ensures points[path[i]].library == points[path[j]].library
    ensures |points[path[i]].content| <= |points[path[j]].content|
    decreases j
  {
    if i < j {
      assert Covers(points, neighbors, threshold, path[j - 1], path[j]);
      ChainKeepsLibraryAndLength(points, neighbors, threshold, path, i, j - 1);
    }
  }

  /** Deduplication never empties a library that had a scanned point, and the longest content in it survives. */
  lemma NoLibraryIsEmptied(
      points: Points, neighbors: Neighbors, threshold: real, scope: set<Id>,
      removed: set<Id>, exactDups: nat, nearDups: nat, log: seq<Removal>, id: Id)
    requires Deduplicated(points, neighbors, threshold, scope, removed, exactDups, nearDups, log) && HashFaithful(points)
    requires id in scope
    ensures exists kept <- points.Keys - removed ::
        points[kept].library == points[id].library && |points[id].content| <= |points[kept].content|
  {
    if id in removed {
      var path := RemovedReachesSurvivor(points, neighbors, threshold, scope, removed, exactDups, nearDups, log, id);
      ChainKeepsLibraryAndLength(points, neighbors, threshold, path, 0, |path| - 1);
      assert path[0] == id;
      var kept := path[|path| - 1];
      assert kept in points.Keys - removed && |points[id].content| <= |points[kept].content|;
    } else {
      assert id in points.Keys - removed;
    }
  }

  /** A second pass over what the first one left, whatever the neighbours say by then, finds no exact duplicate. */
  lemma SecondPassFindsNoExactDuplicate(
      points: Points, library: Option<string>, neighbors: Neighbors, threshold: real,
      removed: set<Id>, exactDups: nat, nearDups: nat, log: seq<Removal>,
      neighbors': Neighbors, threshold': real, removed': set<Id>, exactDups': nat, nearDups': nat, log': seq<Removal>)
    requires Deduplicated(points, neighbors, threshold, Scope(points, library), removed, exactDups, nearDups, log)
    requires Deduplicated(points - removed, neighbors', threshold', Scope(points - removed, library),
                          removed', exactDups', nearDups', log')
    ensures exactDups' == 0
  {
    if exactDups' > 0 {
      var r, left := log'[0], points - removed;
      assert Justified(left, neighbors', threshold', r) && r.exact;
      assert r.dropped in removed' && r.dropped in Scope(points, library) - removed;
      assert r.kept in Scope(points, library) - removed;
      assert SameHash(points, r.dropped, r.kept);
    }
  }
}
