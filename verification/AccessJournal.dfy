/** The access journal: counting, the merge on flush, the snapshot, and renaming after a move. */
module AccessJournal {
  import opened Prelude

  type Id = int

  // `last` is the rank of the RFC 3339 text among strings; a missing one comes first.
  datatype Stat = Stat(count: nat, last: Option<int>)
  type Journal = map<Id, Stat>

  const EMPTY := Stat(0, None)
  const FLUSH_EVERY: nat := 64

  // ----- the join of two entries -----

  predicate Later(x: Option<int>, y: Option<int>) {
    x.Some? && (y.None? || x.value > y.value)
  }

  // `Or_default`, then larger count and later time.
  function MergeStat(e: Stat, stat: Stat): Stat {
    Stat(if e.count >= stat.count then e.count else stat.count,
         if Later(stat.last, e.last) then stat.last else e.last)
  }

  // `x` says no more than `y`.
  predicate Below(x: Stat, y: Stat) {
    x.count <= y.count && !Later(x.last, y.last)
  }

  function At(j: Journal, id: Id): Stat {
    if id in j then j[id] else EMPTY
  }

  // `m` is the join of `a` and `b`: an entry for every id of either, and at each id the least stat above both.
  ghost predicate IsJoin(a: Journal, b: Journal, m: Journal) {
    && m.Keys == a.Keys + b.Keys
    && forall id <- m :: m[id] == MergeStat(At(a, id), At(b, id))
  }

  ghost predicate Covered(a: Journal, b: Journal) {
    a.Keys <= b.Keys && forall id <- a :: Below(a[id], b[id])
  }

  // The join in the open: at every id the larger of the two counts and the later of the two times, where any
  // time is later than none.
  ghost predicate KeepsLargestAndLatest(a: Journal, b: Journal, m: Journal) {
    forall id: Id :: LargestAndLatest(At(a, id), At(b, id), At(m, id))
  }

  predicate LargestAndLatest(x: Stat, y: Stat, m: Stat) {
    && (m.count == x.count || m.count == y.count) && m.count >= x.count && m.count >= y.count
    && (m.last == x.last || m.last == y.last) && NoLaterThan(x.last, m.last) && NoLaterThan(y.last, m.last)
  }

  predicate NoLaterThan(x: Option<int>, y: Option<int>) {
    match (x, y)
    case (Some(a), Some(b)) => a <= b
    case (Some(_), None) => false
    case (None, _) => true
  }

  lemma JoinInTheOpen(a: Journal, b: Journal, m: Journal)
    requires IsJoin(a, b, m)
    ensures KeepsLargestAndLatest(a, b, m)
  {
    forall id
      ensures LargestAndLatest(At(a, id), At(b, id), At(m, id))
    {
      MergedAt(a, b, m, id);
    }
  }

  /** The merge of two stats is their least upper bound. */
  lemma MergeIsLeastUpperBound(x: Stat, y: Stat, z: Stat)
    ensures Below(x, MergeStat(x, y)) && Below(y, MergeStat(x, y))
    ensures Below(x, z) && Below(y, z) ==> Below(MergeStat(x, y), z)
    ensures MergeStat(x, y) == MergeStat(y, x)
    ensures MergeStat(x, MergeStat(y, z)) == MergeStat(MergeStat(x, y), z)
    ensures Below(x, y) && Below(y, x) ==> x == y
    ensures LargestAndLatest(x, y, MergeStat(x, y))
  {
  }

  /** So is the join of two journals: flushes that do not overlap may come in any order and any number. */
  lemma JoinIsLeastUpperBound(a: Journal, b: Journal, m: Journal, z: Journal)
    requires IsJoin(a, b, m)
    ensures Covered(a, m) && Covered(b, m)
    ensures Covered(a, z) && Covered(b, z) ==> Covered(m, z)
    ensures IsJoin(b, a, m) && IsJoin(m, b, m)
  {
    forall id | id in m
      ensures Below(At(a, id), m[id]) && Below(At(b, id), m[id])
      ensures m[id] == MergeStat(At(b, id), At(a, id)) && m[id] == MergeStat(m[id], At(b, id))
    {
      MergeIsLeastUpperBound(At(a, id), At(b, id), m[id]);
    }
  }

  lemma JoinIsUnique(a: Journal, b: Journal, m: Journal, n: Journal)
    requires IsJoin(a, b, m) && IsJoin(a, b, n)
    ensures m == n
  {
    assert m.Keys == n.Keys;
    assert forall id <- m :: m[id] == n[id];
  }

  /** Two processes that flush one after the other leave the same file in either order. */
  lemma FlushOrderIsIrrelevant(
      disk: Journal, mine: Journal, theirs: Journal, m1: Journal, m2: Journal, n1: Journal, n2: Journal)
    requires IsJoin(disk, mine, m1) && IsJoin(m1, theirs, m2)
    requires IsJoin(disk, theirs, n1) && IsJoin(n1, mine, n2)
    ensures m2 == n2
  {
    assert IsJoin(n1, mine, m2) by {
      forall id | id in m2
        ensures m2[id] == MergeStat(At(n1, id), At(mine, id))
      {
        var d, x, y := At(disk, id), At(mine, id), At(theirs, id);
        MergedAt(disk, mine, m1, id);
        MergedAt(disk, theirs, n1, id);
        MergeIsLeastUpperBound(d, x, y);
        MergeIsLeastUpperBound(d, y, x);
        MergeIsLeastUpperBound(x, y, d);
      }
    }
    JoinIsUnique(n1, mine, m2, n2);
  }

  lemma MergedAt(a: Journal, b: Journal, m: Journal, id: Id)
    requires IsJoin(a, b, m)
    ensures At(m, id) == MergeStat(At(a, id), At(b, id))
  {
  }

  // ----- the process -----

  // Every listing counts once, and the listed ids carry the new time.
  ghost predicate Counted(before: Journal, after: Journal, ids: seq<Id>, now: int) {
    && after.Keys == before.Keys + Elems(ids)
    && forall id :: At(after, id) == if id in ids
         then Stat(At(before, id).count + multiset(ids)[id], Some(now)) else At(before, id)
  }

  lemma CountedOneMore(before: Journal, after: Journal, ids: seq<Id>, now: int, x: Id)
    requires Counted(before, after, ids, now)
    ensures Counted(before, after[x := Stat(At(after, x).count + 1, Some(now))], ids + [x], now)
  {
    ElemsSnoc(ids, x);
  }

  class AccessLog {
    var log: Journal
    var pending: nat

    // The log is loaded from disk on first use.
    constructor (disk: Journal)
      ensures log == disk && pending == 0
    {
      log, pending := disk, 0;
    }

    /** Count one access per listed id. Returns whether the caller must flush. */
    method Record(ids: seq<Id>, now: int) returns (flush: bool)
      modifies this
      ensures Counted(old(log), log, ids, now)
      ensures pending == old(pending) + |ids| && (flush <==> ids != [] && pending >= 64)
    {
      if ids == [] {
        return false;
      }
      var i := 0;
      while i < |ids|
        invariant 0 <= i <= |ids| && pending == old(pending)
        invariant Counted(old(log), log, ids[..i], now)
      {
        assert ids[..i + 1] == ids[..i] + [ids[i]];
        CountedOneMore(old(log), log, ids[..i], now, ids[i]);
        var id := ids[i];
        log := log[id := Stat(At(log, id).count + 1, Some(now))];
        i := i + 1;
      }
      assert ids[..i] == ids;
      pending := pending + |ids|;
      flush := pending >= FLUSH_EVERY;
    }

    /** Disk after a flush that nothing interrupts. */
    method Flush(disk: Journal) returns (written: Journal)
      modifies this
      ensures log == old(log) && pending == 0
      ensures IsJoin(disk, log, written) && KeepsLargestAndLatest(disk, log, written)
    {
      pending := 0;
      written := Merge(disk, log);
      JoinInTheOpen(disk, log, written);
    }

    method Snapshot(disk: Journal) returns (merged: Journal)
      ensures IsJoin(disk, log, merged) && KeepsLargestAndLatest(disk, log, merged)
    {
      merged := Merge(disk, log);
      JoinInTheOpen(disk, log, merged);
    }

    /** Rename ids on disk and in the process; the count is of the disk entries renamed. */
    method RekeyIds(disk: Journal, mapping: map<Id, Id>) returns (written: Journal, renamed: nat)
      modifies this
      ensures RenamedTo(disk, mapping, written) && RenamedTo(old(log), mapping, log)
      ensures NoChain(mapping) ==> renamed == |mapping.Keys * disk.Keys|
      ensures renamed == 0 ==> written == disk
      ensures pending == old(pending)
    {
      if mapping == map[] {
        NothingToRename(disk, mapping);
        NothingToRename(log, mapping);
        return disk, 0;
      }
      var onDisk;
      onDisk, renamed := RekeyJournal(disk, mapping);
      written := if renamed > 0 then onDisk else disk;
      var count;
      log, count := RekeyJournal(log, mapping);
    }
  }

  lemma NothingToRename(j: Journal, mapping: map<Id, Id>)
    requires mapping == map[]
    ensures RenamedTo(j, mapping, j) && |mapping.Keys * j.Keys| == 0
  {
    assert IsRekeyed(j, mapping, [], j);
    RenamingInTheOpen(j, mapping, [], j);
    assert mapping.Keys * j.Keys == {};
  }

  // `merge_in`, and what its count is worth.
  method RekeyJournal(j: Journal, mapping: map<Id, Id>) returns (r: Journal, renamed: nat)
    ensures RenamedTo(j, mapping, r)
    ensures NoChain(mapping) ==> renamed == |mapping.Keys * j.Keys|
    ensures renamed == 0 ==> r == j
  {
    ghost var order;
    r, renamed, order := MergeIn(j, mapping);
    RenamingInTheOpen(j, mapping, order, r);
    if renamed == 0 {
      NothingRenamedNothingChanged(j, mapping, order);
    }
    if NoChain(mapping) {
      RenamesCountsPresentSources(j, mapping, order);
    }
  }

  // `map.iter()` comes in any order, and the order leaves no trace in the result.
  method Merge(disk: Journal, log: Journal) returns (merged: Journal)
    ensures IsJoin(disk, log, merged)
  {
    merged := disk;
    var ids := ListSet(log.Keys);
    var i := 0;
    while i < |ids|
      invariant 0 <= i <= |ids|
      invariant merged.Keys == disk.Keys + Elems(ids[..i])
      invariant forall id <- merged ::
          merged[id] == if id in ids[..i] then MergeStat(At(disk, id), At(log, id)) else At(disk, id)
    {
      var id := ids[i];
      assert id in Elems(ids) && id !in ids[..i];
      assert ids[..i + 1] == ids[..i] + [id];
      merged := merged[id := MergeStat(At(merged, id), log[id])];
      i := i + 1;
    }
    assert ids[..i] == ids;
    forall id | id in merged
      ensures merged[id] == MergeStat(At(disk, id), At(log, id))
    {
      if id !in log {
        assert id !in Elems(ids);
      } else {
        assert id in Elems(ids);
      }
    }
  }

  // ----- renaming -----

  ghost predicate ListsKeys(order: seq<Id>, mapping: map<Id, Id>) {
    Distinct(order) && Elems(order) == mapping.Keys
  }

  // One turn of the loop: take the old entry out and merge it into the new one.
  function RekeyOne(j: Journal, from: Id, to: Id): Journal {
    if from !in j then j
    else
      var rest := j - {from};
      rest[to := MergeStat(At(rest, to), j[from])]
  }

  function Rekeyed(j: Journal, mapping: map<Id, Id>, order: seq<Id>): Journal
    requires forall k :: 0 <= k < |order| ==> order[k] in mapping
  {
    if order == [] then j
    else
      var n := |order| - 1;
      RekeyOne(Rekeyed(j, mapping, order[..n]), order[n], mapping[order[n]])
  }

  ghost predicate IsRekeyed(j: Journal, mapping: map<Id, Id>, order: seq<Id>, r: Journal) {
    && ListsKeys(order, mapping)
    && (forall k :: 0 <= k < |order| ==> order[k] in mapping)
    && r == Rekeyed(j, mapping, order)
  }

  // No destination is also a source.
  ghost predicate NoChain(mapping: map<Id, Id>) {
    forall x <- mapping :: mapping[x] !in mapping
  }

  // No present source is moved onto another source that is itself moved elsewhere.
  ghost predicate ChainFree(j: Journal, mapping: map<Id, Id>) {
    forall x <- mapping :: x in j && mapping[x] in mapping && mapping[x] != x ==> mapping[mapping[x]] == mapping[x]
  }

  // How many turns found their source.
  function Renames(j: Journal, mapping: map<Id, Id>, order: seq<Id>): nat
    requires forall k :: 0 <= k < |order| ==> order[k] in mapping
  {
    if order == [] then 0
    else
      var n := |order| - 1;
      Renames(j, mapping, order[..n]) + (if order[n] in Rekeyed(j, mapping, order[..n]) then 1 else 0)
  }

  method MergeIn(j: Journal, mapping: map<Id, Id>) returns (r: Journal, renamed: nat, ghost order: seq<Id>)
    ensures IsRekeyed(j, mapping, order, r)
    ensures renamed == Renames(j, mapping, order)
  {
    var olds := ListSet(mapping.Keys);
    order := olds;
    forall k | 0 <= k < |olds|
      ensures olds[k] in mapping
    {
      assert olds[k] in Elems(olds);
    }
    r, renamed := j, 0;
    var i := 0;
    while i < |olds|
      invariant 0 <= i <= |olds|
      invariant r == Rekeyed(j, mapping, olds[..i])
      invariant renamed == Renames(j, mapping, olds[..i])
    {
      var from, to := olds[i], mapping[olds[i]];
      assert olds[..i + 1][..i] == olds[..i];
      if from in r {
        var rest := r - {from};
        r := rest[to := MergeStat(At(rest, to), r[from])];
        renamed := renamed + 1;
      }
      i := i + 1;
    }
    assert olds[..i] == olds;
  }

  lemma {:induction false} NothingRenamedNothingChanged(j: Journal, mapping: map<Id, Id>, order: seq<Id>)
    requires forall k :: 0 <= k < |order| ==> order[k] in mapping
    requires Renames(j, mapping, order) == 0
    ensures Rekeyed(j, mapping, order) == j
  {
    if order != [] {
      NothingRenamedNothingChanged(j, mapping, order[..|order| - 1]);
    }
  }

  /** With no destination a source, the result counts the sources that were present. */
  lemma {:induction false} RenamesCountsPresentSources(j: Journal, mapping: map<Id, Id>, order: seq<Id>)
    requires forall k :: 0 <= k < |order| ==> order[k] in mapping
    requires NoChain(mapping) && Distinct(order)
    ensures Renames(j, mapping, order) == |Elems(order) * j.Keys|
  {
    if order == [] {
      assert Elems(order) * j.Keys == {};
    } else {
      var init, last := order[..|order| - 1], order[|order| - 1];
      assert order == init + [last] && last !in init;
      RenamesCountsPresentSources(j, mapping, init);
      OneMoreTurnCounts(j, mapping, init, last);
    }
  }

  lemma OneMoreTurnCounts(j: Journal, mapping: map<Id, Id>, init: seq<Id>, last: Id)
    requires forall k :: 0 <= k < |init| ==> init[k] in mapping
    requires NoChain(mapping) && last in mapping && last !in init
    requires Renames(j, mapping, init) == |Elems(init) * j.Keys|
    ensures forall k :: 0 <= k < |init + [last]| ==> (init + [last])[k] in mapping
    ensures Renames(j, mapping, init + [last]) == |Elems(init + [last]) * j.Keys|
  {
    LastTurnCounts(j, mapping, init, last);
    ElemsSnoc(init, last);
    OneMorePresent(Elems(init), last, j.Keys);
  }

  lemma LastTurnCounts(j: Journal, mapping: map<Id, Id>, init: seq<Id>, last: Id)
    requires forall k :: 0 <= k < |init| ==> init[k] in mapping
    requires NoChain(mapping) && last in mapping && last !in init
    ensures forall k :: 0 <= k < |init + [last]| ==> (init + [last])[k] in mapping
    ensures Renames(j, mapping, init + [last]) == Renames(j, mapping, init) + (if last in j then 1 else 0)
  {
    assert (init + [last])[..|init|] == init;
    UntouchedSource(j, mapping, init, last);
  }

  lemma OneMorePresent(ids: set<Id>, x: Id, present: set<Id>)
    requires x !in ids
    ensures |(ids + {x}) * present| == |ids * present| + (if x in present then 1 else 0)
  {
    assert (ids + {x}) * present == ids * present + (if x in present then {x} else {});
  }

  // A source not yet reached is present exactly if it was at the start, when nothing is moved onto sources.
  lemma {:induction false} UntouchedSource(j: Journal, mapping: map<Id, Id>, order: seq<Id>, x: Id)
    requires NoChain(mapping) && x in mapping && x !in order
    requires forall k :: 0 <= k < |order| ==> order[k] in mapping
    ensures x in Rekeyed(j, mapping, order) <==> x in j
  {
    if order != [] {
      assert order == order[..|order| - 1] + [order[|order| - 1]];
      UntouchedSource(j, mapping, order[..|order| - 1], x);
    }
  }

  // Where `x` ends up once the sources in `moved` have been renamed.
  function Dest(mapping: map<Id, Id>, moved: set<Id>, x: Id): Id
    requires moved <= mapping.Keys
  {
    if x in moved then mapping[x] else x
  }

  // `r` at `d` is the least stat above those of all entries that end up at `d`.
  ghost predicate Collects(j: Journal, mapping: map<Id, Id>, moved: set<Id>, d: Id, stat: Stat)
    requires moved <= mapping.Keys
  {
    && (forall x <- j :: Dest(mapping, moved, x) == d ==> Below(j[x], stat))
    && (exists x <- j :: Dest(mapping, moved, x) == d && j[x].count == stat.count)
    && (exists x <- j :: Dest(mapping, moved, x) == d && j[x].last == stat.last)
  }

  ghost predicate ReachesAll(j: Journal, mapping: map<Id, Id>, moved: set<Id>, r: Journal)
    requires moved <= mapping.Keys
  {
    forall x <- j :: Dest(mapping, moved, x) in r
  }

  ghost predicate CollectsAll(j: Journal, mapping: map<Id, Id>, moved: set<Id>, r: Journal)
    requires moved <= mapping.Keys
  {
    forall d <- r :: Collects(j, mapping, moved, d, r[d])
  }

  ghost predicate IsRenaming(j: Journal, mapping: map<Id, Id>, moved: set<Id>, r: Journal)
    requires moved <= mapping.Keys
  {
    ReachesAll(j, mapping, moved, r) && CollectsAll(j, mapping, moved, r)
  }

  lemma RenamingIsUnique(j: Journal, mapping: map<Id, Id>, moved: set<Id>, r: Journal, s: Journal)
    requires moved <= mapping.Keys
    requires IsRenaming(j, mapping, moved, r) && IsRenaming(j, mapping, moved, s)
    ensures r == s
  {
    forall d
      ensures d in r <==> d in s
    {
      if d in r { assert Collects(j, mapping, moved, d, r[d]); }
      if d in s { assert Collects(j, mapping, moved, d, s[d]); }
    }
    forall d | d in r
      ensures r[d] == s[d]
    {
      assert Collects(j, mapping, moved, d, r[d]) && Collects(j, mapping, moved, d, s[d]);
    }
  }

  // Before its turn, a source that really moves holds its own entry and nothing else.
  lemma SourceStandsAlone(j: Journal, mapping: map<Id, Id>, moved: set<Id>, cur: Journal, from: Id)
    requires moved <= mapping.Keys && ChainFree(j, mapping) && IsRenaming(j, mapping, moved, cur)
    requires from in mapping && from !in moved && mapping[from] != from
    ensures from in cur <==> from in j
    ensures from in j ==> cur[from] == j[from]
  {
    forall x | x in j && Dest(mapping, moved, x) == from
      ensures x == from
    {
    }
    if from in cur {
      assert Collects(j, mapping, moved, from, cur[from]);
    }
  }

  // A turn that moves nobody.
  lemma SameDestinations(j: Journal, mapping: map<Id, Id>, moved: set<Id>, more: set<Id>, cur: Journal)
    requires moved <= mapping.Keys && more <= mapping.Keys && IsRenaming(j, mapping, moved, cur)
    requires forall x <- j :: Dest(mapping, more, x) == Dest(mapping, moved, x)
    ensures IsRenaming(j, mapping, more, cur)
  {
    forall d | d in cur
      ensures Collects(j, mapping, more, d, cur[d])
    {
      assert Collects(j, mapping, moved, d, cur[d]);
    }
  }

  lemma RenameOneMore(j: Journal, mapping: map<Id, Id>, moved: set<Id>, cur: Journal, from: Id)
    requires moved <= mapping.Keys && ChainFree(j, mapping) && IsRenaming(j, mapping, moved, cur)
    requires from in mapping && from !in moved
    ensures IsRenaming(j, mapping, moved + {from}, RekeyOne(cur, from, mapping[from]))
  {
    if mapping[from] == from {
      assert RekeyOne(cur, from, from) == cur;
      SameDestinations(j, mapping, moved, moved + {from}, cur);
    } else {
      SourceStandsAlone(j, mapping, moved, cur, from);
      if from in j {
        DestinationsStay(j, mapping, moved, cur, from);
        MovedCollectsAll(j, mapping, moved, cur, from);
      } else {
        SameDestinations(j, mapping, moved, moved + {from}, cur);
      }
    }
  }

  // One entry is taken out at `from` and merged in at its destination; the other entries keep theirs.
  lemma OtherEntryCollects(j: Journal, mapping: map<Id, Id>, moved: set<Id>, cur: Journal, from: Id, d: Id)
    requires moved <= mapping.Keys && IsRenaming(j, mapping, moved, cur)
    requires from in mapping && from !in moved && d in cur && d != from && d != mapping[from]
    ensures Collects(j, mapping, moved + {from}, d, cur[d])
  {
    assert Collects(j, mapping, moved, d, cur[d]);
    assert forall x <- j :: x != from ==> Dest(mapping, moved + {from}, x) == Dest(mapping, moved, x);
  }

  lemma TargetCollects(j: Journal, mapping: map<Id, Id>, moved: set<Id>, cur: Journal, from: Id)
    requires moved <= mapping.Keys && IsRenaming(j, mapping, moved, cur)
    requires from in mapping && from !in moved && mapping[from] != from
    requires from in j && from in cur && cur[from] == j[from]
    ensures Collects(j, mapping, moved + {from}, mapping[from], MergeStat(At(cur, mapping[from]), cur[from]))
  {
    var to := mapping[from];
    assert Dest(mapping, moved + {from}, from) == to;
    if to in cur {
      assert Collects(j, mapping, moved, to, cur[to]);
    } else {
      assert forall x <- j :: Dest(mapping, moved, x) != to;
    }
    assert forall x <- j :: x != from ==> Dest(mapping, moved + {from}, x) == Dest(mapping, moved, x);
  }

  lemma DestinationsStay(j: Journal, mapping: map<Id, Id>, moved: set<Id>, cur: Journal, from: Id)
    requires moved <= mapping.Keys && ChainFree(j, mapping) && ReachesAll(j, mapping, moved, cur)
    requires from in mapping && from !in moved && mapping[from] != from && from in cur
    ensures ReachesAll(j, mapping, moved + {from}, RekeyOne(cur, from, mapping[from]))
  {
    forall x | x in j
      ensures Dest(mapping, moved + {from}, x) in RekeyOne(cur, from, mapping[from])
    {
      assert Dest(mapping, moved, x) in cur;
    }
  }

  lemma EntryCollects(j: Journal, mapping: map<Id, Id>, moved: set<Id>, cur: Journal, from: Id, d: Id)
    requires moved <= mapping.Keys && IsRenaming(j, mapping, moved, cur)
    requires from in mapping && from !in moved && mapping[from] != from
    requires from in j && from in cur && cur[from] == j[from]
    requires d in RekeyOne(cur, from, mapping[from])
    ensures Collects(j, mapping, moved + {from}, d, RekeyOne(cur, from, mapping[from])[d])
  {
    if d == mapping[from] {
      TargetCollects(j, mapping, moved, cur, from);
    } else {
      OtherEntryCollects(j, mapping, moved, cur, from, d);
    }
  }

  lemma MovedCollectsAll(j: Journal, mapping: map<Id, Id>, moved: set<Id>, cur: Journal, from: Id)
    requires moved <= mapping.Keys && IsRenaming(j, mapping, moved, cur)
    requires from in mapping && from !in moved && mapping[from] != from
    requires from in j && from in cur && cur[from] == j[from]
    ensures CollectsAll(j, mapping, moved + {from}, RekeyOne(cur, from, mapping[from]))
  {
    forall d | d in RekeyOne(cur, from, mapping[from])
      ensures Collects(j, mapping, moved + {from}, d, RekeyOne(cur, from, mapping[from])[d])
    {
      EntryCollects(j, mapping, moved, cur, from, d);
    }
  }

  /** Whatever order the map is iterated in, a chain-free rename puts at each id the largest count and the
      latest time over everything that ends up there. */
  lemma {:induction false} RekeyedIsRenaming(j: Journal, mapping: map<Id, Id>, order: seq<Id>)
    requires Distinct(order) && ChainFree(j, mapping)
    requires forall k :: 0 <= k < |order| ==> order[k] in mapping
    ensures Elems(order) <= mapping.Keys && IsRenaming(j, mapping, Elems(order), Rekeyed(j, mapping, order))
  {
    if order == [] {
      assert forall d <- j :: Dest(mapping, {}, d) == d;
    } else {
      var init, last := order[..|order| - 1], order[|order| - 1];
      assert order == init + [last] && last !in init;
      RekeyedIsRenaming(j, mapping, init);
      ElemsSnoc(init, last);
      RenameOneMore(j, mapping, Elems(init), Rekeyed(j, mapping, init), last);
    }
  }

  // The renaming in the open: every entry arrives, and at each id stand the largest count and the latest time
  // of the entries that arrive there, and none without one.
  ghost predicate MovesAll(j: Journal, mapping: map<Id, Id>, r: Journal) {
    && (forall x <- j :: (if x in mapping then mapping[x] else x) in r)
    && (forall d <- r :: ArrivesAt(j, mapping, d, r[d]))
  }

  ghost predicate ArrivesAt(j: Journal, mapping: map<Id, Id>, d: Id, stat: Stat) {
    && (forall x <- j :: d == (if x in mapping then mapping[x] else x) ==>
          j[x].count <= stat.count && NoLaterThan(j[x].last, stat.last))
    && (exists x <- j :: d == (if x in mapping then mapping[x] else x) && j[x].count == stat.count)
    && (exists x <- j :: d == (if x in mapping then mapping[x] else x) && j[x].last == stat.last)
  }

  // The journal after the renaming, whichever order the hash map came in.
  ghost predicate RenamedTo(j: Journal, mapping: map<Id, Id>, r: Journal) {
    && (exists order :: IsRekeyed(j, mapping, order, r))
    && (ChainFree(j, mapping) ==> MovesAll(j, mapping, r))
  }

  lemma RenamingInTheOpen(j: Journal, mapping: map<Id, Id>, order: seq<Id>, r: Journal)
    requires IsRekeyed(j, mapping, order, r)
    ensures RenamedTo(j, mapping, r)
  {
    if ChainFree(j, mapping) {
      RekeyedIsRenaming(j, mapping, order);
      assert IsRenaming(j, mapping, mapping.Keys, r);
      assert forall x: Id :: Dest(mapping, mapping.Keys, x) == if x in mapping then mapping[x] else x;
      forall d | d in r
        ensures ArrivesAt(j, mapping, d, r[d])
      {
        CollectedArrives(j, mapping, d, r[d]);
      }
    }
  }

  lemma CollectedArrives(j: Journal, mapping: map<Id, Id>, d: Id, stat: Stat)
    requires Collects(j, mapping, mapping.Keys, d, stat)
    ensures ArrivesAt(j, mapping, d, stat)
  {
    var x :| x in j && Dest(mapping, mapping.Keys, x) == d && j[x].count == stat.count;
    var y :| y in j && Dest(mapping, mapping.Keys, y) == d && j[y].last == stat.last;
  }

  /** An access time that was recorded reaches the disk with the next flush, unless a later one is there. */
  lemma RecordedTimeReachesDisk(
      before: Journal, log: Journal, ids: seq<Id>, now: int, disk: Journal, written: Journal, id: Id)
    requires Counted(before, log, ids, now) && id in ids && IsJoin(disk, log, written)
    ensures At(written, id).last.Some? && At(written, id).last.value >= now
    ensures At(disk, id).last.None? || At(disk, id).last.value <= now ==> At(written, id).last == Some(now)
    ensures At(written, id).count >= At(before, id).count + 1
  {
    MergedAt(disk, log, written, id);
  }

  // An entry not yet reached is still there, whatever was merged into it.
  lemma {:induction false} StaysUntilItsTurn(j: Journal, mapping: map<Id, Id>, order: seq<Id>, x: Id)
    requires x in j && x !in order
    requires forall k :: 0 <= k < |order| ==> order[k] in mapping
    ensures x in Rekeyed(j, mapping, order)
  {
    if order != [] {
      assert order == order[..|order| - 1] + [order[|order| - 1]];
      StaysUntilItsTurn(j, mapping, order[..|order| - 1], x);
    }
  }

  lemma {:induction false} SomeListing(ids: set<Id>) returns (order: seq<Id>)
    ensures Distinct(order) && Elems(order) == ids
    decreases |ids|
  {
    if ids == {} {
      order := [];
    } else {
      var x := SomeMember(ids);
      var rest := SomeListing(ids - {x});
      assert x !in Elems(rest);
      order := rest + [x];
      assert Elems(order) == Elems(rest) + {x};
    }
  }

  lemma ListingThatEndsWith(mapping: map<Id, Id>, x: Id) returns (init: seq<Id>)
    requires x in mapping
    ensures x !in init && ListsKeys(init + [x], mapping)
    ensures forall k :: 0 <= k < |init + [x]| ==> (init + [x])[k] in mapping
  {
    init := SomeListing(mapping.Keys - {x});
    assert x !in Elems(init);
    assert Elems(init + [x]) == Elems(init) + {x};
    forall k | 0 <= k < |init + [x]|
      ensures (init + [x])[k] in mapping
    {
      assert (init + [x])[k] in Elems(init + [x]);
    }
  }

  ghost predicate OrderIrrelevant(j: Journal, mapping: map<Id, Id>) {
    forall o1, o2, r1, r2 :: IsRekeyed(j, mapping, o1, r1) && IsRekeyed(j, mapping, o2, r2) ==> r1 == r2
  }

  lemma ChainDependsOnOrder(j: Journal, mapping: map<Id, Id>, x: Id)
    requires x in mapping && x in j && mapping[x] in mapping && mapping[x] != x
    requires mapping[mapping[x]] != mapping[x]
    ensures !OrderIrrelevant(j, mapping)
  {
    var y := mapping[x];
    var first := ListingThatEndsWith(mapping, x);
    var second := ListingThatEndsWith(mapping, y);
    var o1, o2 := first + [x], second + [y];
    assert o1[..|first|] == first && o2[..|second|] == second;
    StaysUntilItsTurn(j, mapping, first, x);
    var r1, r2 := Rekeyed(j, mapping, o1), Rekeyed(j, mapping, o2);
    assert y in r1 && y !in r2;
    assert IsRekeyed(j, mapping, o1, r1) && IsRekeyed(j, mapping, o2, r2);
  }

  /** The iteration order of the hash map is invisible exactly when the renaming is chain-free. */
  lemma OrderIrrelevantIffChainFree(j: Journal, mapping: map<Id, Id>)
    ensures OrderIrrelevant(j, mapping) <==> ChainFree(j, mapping)
  {
    if ChainFree(j, mapping) {
      forall o1, o2, r1, r2 | IsRekeyed(j, mapping, o1, r1) && IsRekeyed(j, mapping, o2, r2)
        ensures r1 == r2
      {
        RekeyedIsRenaming(j, mapping, o1);
        RekeyedIsRenaming(j, mapping, o2);
        RenamingIsUnique(j, mapping, mapping.Keys, r1, r2);
      }
    } else {
      var x :| x in mapping && x in j && mapping[x] in mapping && mapping[x] != x && mapping[mapping[x]] != mapping[x];
      ChainDependsOnOrder(j, mapping, x);
    }
  }

  /** After a rename between disjoint id sets no source is left, neither then nor after any later flush by a
      process that was renamed too; a process that was not brings back exactly the old ids it remembers. */
  lemma OldIdsStayGone(
      j: Journal, mapping: map<Id, Id>, order: seq<Id>, r: Journal, other: Journal, m: Journal, x: Id)
    requires NoChain(mapping) && IsRekeyed(j, mapping, order, r) && x in mapping
    requires IsJoin(r, other, m)
    ensures x !in r
    ensures x in m <==> x in other
  {
    RekeyedIsRenaming(j, mapping, order);
    assert x in r ==> Collects(j, mapping, mapping.Keys, x, r[x]);
  }
}
