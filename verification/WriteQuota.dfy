/** The per-author write quota: a pruned deque against the full history. */
module WriteQuota {
  import opened Prelude

  // Instants in nanoseconds of a monotonic clock.
  type Instant = int

  const WINDOW: int := 60_000_000_000
  const U32_SIZE: nat := 0x1_0000_0000

  // `duration_since` saturates at zero for an instant that lies ahead.
  function DurationSince(now: Instant, then': Instant): int {
    if now < then' then 0 else now - then'
  }

  predicate Expired(now: Instant, hit: Instant) {
    DurationSince(now, hit) >= WINDOW
  }

  function Prune(hits: seq<Instant>, now: Instant): seq<Instant> {
    if hits != [] && Expired(now, hits[0]) then Prune(hits[1..], now) else hits
  }

  // The length is compared as a 32-bit number.
  predicate Full(hits: seq<Instant>, quota: nat) {
    |hits| % U32_SIZE >= quota
  }

  function Checked(hits: seq<Instant>, now: Instant, quota: nat): seq<Instant> {
    var pruned := Prune(hits, now);
    if Full(pruned, quota) then pruned else pruned + [now]
  }

  class Limiter {
    var writes: map<string, seq<Instant>>

    constructor ()
      ensures writes == map[]
    {
      writes := map[];
    }

    function HitsOf(who: string): seq<Instant>
      reads this
    {
      if who in writes then writes[who] else []
    }

    /** A quota of zero or a poisoned lock lets everything through; otherwise only the caller's own deque is
        touched. */
    method CheckWriteQuota(who: string, now: Instant, quota: nat, poisoned: bool) returns (accepted: bool)
      requires quota < U32_SIZE
      modifies this
      ensures quota == 0 || poisoned ==> accepted && writes == old(writes)
      ensures quota > 0 && !poisoned ==>
        var hits := if who in old(writes) then old(writes)[who] else [];
        && writes == old(writes)[who := Checked(hits, now, quota)]
        && (accepted <==> DequeAccepts(hits, now, quota))
    {
      if quota == 0 || poisoned {
        return true;
      }
      var hits := HitsOf(who);
      while hits != [] && Expired(now, hits[0])
        invariant Prune(hits, now) == Prune(old(HitsOf(who)), now)
        decreases |hits|
      {
        hits := hits[1..];
      }
      if Full(hits, quota) {
        writes := writes[who := hits];
        return false;
      }
      writes := writes[who := hits + [now]];
      return true;
    }
  }

  // ----- runs of attempts of one caller -----

  predicate DequeAccepts(hits: seq<Instant>, now: Instant, quota: nat) {
    !Full(Prune(hits, now), quota)
  }

  // The deque after the attempts `nows`, listed in the order in which they took the lock.
  function DequeRun(nows: seq<Instant>, quota: nat): seq<Instant> {
    if nows == [] then [] else Checked(DequeRun(nows[..|nows| - 1], quota), nows[|nows| - 1], quota)
  }

  // The full history: the writes that the limiter lets through.
  function LetThrough(nows: seq<Instant>, quota: nat): seq<Instant> {
    if nows == [] then []
    else
      var init, now := nows[..|nows| - 1], nows[|nows| - 1];
      if DequeAccepts(DequeRun(init, quota), now, quota) then LetThrough(init, quota) + [now]
      else LetThrough(init, quota)
  }

  lemma RunOfOne(a: Instant, quota: nat)
    requires quota > 0
    ensures DequeRun([a], quota) == [a] && LetThrough([a], quota) == [a]
  {
    assert [a][..0] == [];
  }

  lemma RunOneMore(nows: seq<Instant>, now: Instant, quota: nat)
    ensures DequeRun(nows + [now], quota) == Checked(DequeRun(nows, quota), now, quota)
    ensures LetThrough(nows + [now], quota)
         == LetThrough(nows, quota) + (if DequeAccepts(DequeRun(nows, quota), now, quota) then [now] else [])
  {
    assert (nows + [now])[..|nows|] == nows;
  }

  // How many of `accepted` are less than `span` old at `now`.
  function Within(accepted: seq<Instant>, now: Instant, span: int): nat {
    if accepted == [] then 0
    else Within(accepted[..|accepted| - 1], now, span)
         + (if DurationSince(now, accepted[|accepted| - 1]) < span then 1 else 0)
  }

  function FreshCount(accepted: seq<Instant>, now: Instant): nat {
    Within(accepted, now, WINDOW)
  }

  // The clock is read before the lock is taken: an attempt may carry a timestamp that lies before that of
  // an earlier one, by at most `lag`.
  ghost predicate LagsBy(nows: seq<Instant>, lag: nat) {
    forall i, j :: 0 <= i < j < |nows| ==> nows[i] <= nows[j] + lag
  }

  ghost predicate InOrder(nows: seq<Instant>) {
    LagsBy(nows, 0)
  }

  lemma {:induction false} PruneIsSuffix(hits: seq<Instant>, now: Instant) returns (k: nat)
    ensures k <= |hits| && Prune(hits, now) == hits[k..]
    ensures forall i :: 0 <= i < k ==> Expired(now, hits[i])
    ensures k < |hits| ==> !Expired(now, hits[k])
  {
    if hits != [] && Expired(now, hits[0]) {
      var rest := PruneIsSuffix(hits[1..], now);
      k := rest + 1;
      assert forall i :: 0 < i < k ==> hits[i] == hits[1..][i - 1];
    } else {
      k := 0;
    }
  }

  /** Without any assumption on the clock: the deque never holds more than the quota, so its 32-bit length
      is its length. */
  lemma {:induction false} DequeNeverExceedsQuota(nows: seq<Instant>, quota: nat)
    requires 0 < quota < U32_SIZE
    ensures |DequeRun(nows, quota)| <= quota
  {
    if nows != [] {
      DequeNeverExceedsQuota(nows[..|nows| - 1], quota);
      var k := PruneIsSuffix(DequeRun(nows[..|nows| - 1], quota), nows[|nows| - 1]);
    }
  }

  // In any order of timestamps the deque is the tail of the full history.
  lemma {:induction false} DequeIsTail(nows: seq<Instant>, quota: nat) returns (gap: nat)
    ensures gap <= |LetThrough(nows, quota)| && DequeRun(nows, quota) == LetThrough(nows, quota)[gap..]
  {
    if nows == [] {
      gap := 0;
    } else {
      var init, now := nows[..|nows| - 1], nows[|nows| - 1];
      var before := DequeIsTail(init, quota);
      var k := PruneIsSuffix(DequeRun(init, quota), now);
      gap := before + k;
      assert (LetThrough(init, quota) + [now])[gap..] == LetThrough(init, quota)[gap..] + [now];
    }
  }

  // How many entries of the history the deque has dropped.
  function Forgotten(nows: seq<Instant>, quota: nat): int {
    |LetThrough(nows, quota)| - |DequeRun(nows, quota)|
  }

  // A dropped entry had expired at one of the attempts.
  lemma {:induction false} ForgottenHadExpired(nows: seq<Instant>, quota: nat, i: nat) returns (j: nat)
    requires i < Forgotten(nows, quota)
    ensures j < |nows| && i < |LetThrough(nows, quota)| && Expired(nows[j], LetThrough(nows, quota)[i])
  {
    var init, now := nows[..|nows| - 1], nows[|nows| - 1];
    var before := DequeIsTail(init, quota);
    var k := PruneIsSuffix(DequeRun(init, quota), now);
    if i < before {
      j := ForgottenHadExpired(init, quota, i);
    } else {
      j := |nows| - 1;
      assert DequeRun(init, quota)[i - before] == LetThrough(init, quota)[i];
    }
  }

  // The history keeps the order of the attempts, and so their lag.
  lemma {:induction false} HistoryLags(nows: seq<Instant>, now: Instant, quota: nat, lag: nat)
    requires LagsBy(nows + [now], lag)
    ensures LagsBy(LetThrough(nows, quota) + [now], lag)
  {
    if nows != [] {
      var init, last := nows[..|nows| - 1], nows[|nows| - 1];
      LagsOneLess(nows, now, lag);
      HistoryLags(init, now, quota, lag);
      HistoryLags(init, last, quota, lag);
      LagsOneMore(LetThrough(init, quota), last, now, lag);
    }
  }

  lemma LagsOneLess(nows: seq<Instant>, now: Instant, lag: nat)
    requires nows != [] && LagsBy(nows + [now], lag)
    ensures LagsBy(nows[..|nows| - 1] + [now], lag) && LagsBy(nows[..|nows| - 1] + [nows[|nows| - 1]], lag)
    ensures nows[|nows| - 1] <= now + lag
  {
    var all := nows + [now];
    assert all[|nows| - 1] == nows[|nows| - 1] && all[|nows|] == now;
    assert forall i :: 0 <= i < |nows| ==> all[i] == nows[i];
  }

  lemma LagsOneMore(accepted: seq<Instant>, last: Instant, now: Instant, lag: nat)
    requires LagsBy(accepted + [last], lag) && LagsBy(accepted + [now], lag) && last <= now + lag
    ensures LagsBy(accepted + [last] + [now], lag)
  {
    var n, all := |accepted|, accepted + [last] + [now];
    forall i, j | 0 <= i < j < |all|
      ensures all[i] <= all[j] + lag
    {
      assert i < n ==> (accepted + [last])[i] == (accepted + [now])[i] == all[i];
      assert (accepted + [last])[n] == last && (accepted + [now])[n] == now;
    }
  }

  // ----- the limiter between two counts of the full history -----

  lemma {:induction false} TooOldBefore(accepted: seq<Instant>, now: Instant, span: int, g: nat)
    requires g <= |accepted| && forall i :: 0 <= i < g ==> DurationSince(now, accepted[i]) >= span
    ensures Within(accepted, now, span) <= |accepted| - g
  {
    if accepted != [] {
      TooOldBefore(accepted[..|accepted| - 1], now, span, if g < |accepted| then g else g - 1);
    }
  }

  lemma {:induction false} YoungAfter(accepted: seq<Instant>, now: Instant, span: int, g: nat)
    requires g <= |accepted| && forall i :: g <= i < |accepted| ==> DurationSince(now, accepted[i]) < span
    ensures Within(accepted, now, span) >= |accepted| - g
  {
    if g < |accepted| {
      YoungAfter(accepted[..|accepted| - 1], now, span, g);
    }
  }

  // The pruned deque, seen from the history: `g` entries are gone, and the next one is fresh.
  lemma PrunedIsTail(nows: seq<Instant>, now: Instant, quota: nat) returns (gap: nat, g: nat)
    ensures gap == Forgotten(nows, quota) && gap <= g <= |LetThrough(nows, quota)|
    ensures Prune(DequeRun(nows, quota), now) == LetThrough(nows, quota)[g..]
    ensures forall i :: gap <= i < g ==> Expired(now, LetThrough(nows, quota)[i])
    ensures g < |LetThrough(nows, quota)| ==> !Expired(now, LetThrough(nows, quota)[g])
  {
    var history, hits := LetThrough(nows, quota), DequeRun(nows, quota);
    gap := DequeIsTail(nows, quota);
    var k := PruneIsSuffix(hits, now);
    g := gap + k;
    assert hits[k..] == history[g..];
    forall i | gap <= i < |history|
      ensures history[i] == hits[i - gap]
    {
    }
  }

  // What is forgotten or pruned is older than the window, give or take the lag.
  lemma OnlyOldIsDropped(nows: seq<Instant>, now: Instant, quota: nat, lag: nat, i: nat)
    requires LagsBy(nows + [now], lag)
    requires i < |LetThrough(nows, quota)| - |Prune(DequeRun(nows, quota), now)|
    ensures DurationSince(now, LetThrough(nows, quota)[i]) >= WINDOW - lag
  {
    var gap, g := PrunedIsTail(nows, now, quota);
    if i < gap {
      var j := ForgottenHadExpired(nows, quota, i);
      assert (nows + [now])[j] == nows[j] && (nows + [now])[|nows|] == now;
    }
  }

  // What is kept is younger than the window, give or take the lag: its front has not expired.
  lemma OnlyYoungIsKept(nows: seq<Instant>, now: Instant, quota: nat, lag: nat, i: nat)
    requires LagsBy(nows + [now], lag)
    requires |LetThrough(nows, quota)| - |Prune(DequeRun(nows, quota), now)| <= i < |LetThrough(nows, quota)|
    ensures DurationSince(now, LetThrough(nows, quota)[i]) < WINDOW + lag
  {
    var history := LetThrough(nows, quota);
    var gap, g := PrunedIsTail(nows, now, quota);
    HistoryLags(nows, now, quota, lag);
    assert (history + [now])[g] == history[g] && (history + [now])[i] == history[i];
  }

  lemma AcceptsByLength(nows: seq<Instant>, now: Instant, quota: nat)
    requires 0 < quota < U32_SIZE
    ensures DequeAccepts(DequeRun(nows, quota), now, quota) <==> |Prune(DequeRun(nows, quota), now)| < quota
  {
    DequeNeverExceedsQuota(nows, quota);
    var k := PruneIsSuffix(DequeRun(nows, quota), now);
  }

  lemma PrunedCountsAtLeast(nows: seq<Instant>, now: Instant, quota: nat, lag: nat)
    requires LagsBy(nows + [now], lag)
    ensures Within(LetThrough(nows, quota), now, WINDOW - lag) <= |Prune(DequeRun(nows, quota), now)|
  {
    var gap, g := PrunedIsTail(nows, now, quota);
    forall i | 0 <= i < g
      ensures DurationSince(now, LetThrough(nows, quota)[i]) >= WINDOW - lag
    {
      OnlyOldIsDropped(nows, now, quota, lag, i);
    }
    TooOldBefore(LetThrough(nows, quota), now, WINDOW - lag, g);
  }

  lemma PrunedCountsAtMost(nows: seq<Instant>, now: Instant, quota: nat, lag: nat)
    requires LagsBy(nows + [now], lag)
    ensures |Prune(DequeRun(nows, quota), now)| <= Within(LetThrough(nows, quota), now, WINDOW + lag)
  {
    var gap, g := PrunedIsTail(nows, now, quota);
    forall i | g <= i < |LetThrough(nows, quota)|
      ensures DurationSince(now, LetThrough(nows, quota)[i]) < WINDOW + lag
    {
      OnlyYoungIsKept(nows, now, quota, lag, i);
    }
    YoungAfter(LetThrough(nows, quota), now, WINDOW + lag, g);
  }

  /** In every order of timestamps: if no attempt lags an earlier one by more than `lag`, the pruned deque
      counts at least the writes of the last 60 seconds less the lag, and at most those of the last 60
      seconds plus the lag. So a write is let through whenever fewer than `quota` writes lie in the longer
      span, and only if fewer than `quota` lie in the shorter one. */
  lemma LimiterIsSandwiched(nows: seq<Instant>, now: Instant, quota: nat, lag: nat)
    requires 0 < quota < U32_SIZE && LagsBy(nows + [now], lag)
    ensures Within(LetThrough(nows, quota), now, WINDOW - lag)
         <= |Prune(DequeRun(nows, quota), now)|
         <= Within(LetThrough(nows, quota), now, WINDOW + lag)
    ensures Within(LetThrough(nows, quota), now, WINDOW + lag) < quota ==>
      DequeAccepts(DequeRun(nows, quota), now, quota)
    ensures DequeAccepts(DequeRun(nows, quota), now, quota) ==>
      Within(LetThrough(nows, quota), now, WINDOW - lag) < quota
  {
    PrunedCountsAtLeast(nows, now, quota, lag);
    PrunedCountsAtMost(nows, now, quota, lag);
    AcceptsByLength(nows, now, quota);
  }

  lemma PrunedLengthInOrder(nows: seq<Instant>, now: Instant, quota: nat)
    requires InOrder(nows + [now])
    ensures |Prune(DequeRun(nows, quota), now)| == FreshCount(LetThrough(nows, quota), now)
  {
    var history, n := LetThrough(nows, quota), |Prune(DequeRun(nows, quota), now)|;
    PrunedCountsAtLeast(nows, now, quota, 0);
    PrunedCountsAtMost(nows, now, quota, 0);
    assert Within(history, now, WINDOW) <= n <= Within(history, now, WINDOW);
  }

  /** With timestamps in order, a write is let through exactly if fewer than `quota` writes of the full
      history lie in the last 60 seconds. */
  lemma PrunedDequeAgreesWithHistory(nows: seq<Instant>, now: Instant, quota: nat)
    requires 0 < quota < U32_SIZE && InOrder(nows + [now])
    ensures |Prune(DequeRun(nows, quota), now)| == FreshCount(LetThrough(nows, quota), now)
    ensures DequeAccepts(DequeRun(nows, quota), now, quota) <==> FreshCount(LetThrough(nows, quota), now) < quota
  {
    PrunedLengthInOrder(nows, now, quota);
    AcceptsByLength(nows, now, quota);
  }

  // The limiter that forgets nothing.
  function NaiveRun(nows: seq<Instant>, quota: nat): seq<Instant> {
    if nows == [] then []
    else
      var earlier, now := NaiveRun(nows[..|nows| - 1], quota), nows[|nows| - 1];
      if FreshCount(earlier, now) < quota then earlier + [now] else earlier
  }

  /** Over a whole run in order the pruned deque refines the limiter that forgets nothing. */
  lemma {:induction false} LimiterRefinesNaive(nows: seq<Instant>, quota: nat)
    requires 0 < quota < U32_SIZE && InOrder(nows)
    ensures LetThrough(nows, quota) == NaiveRun(nows, quota)
  {
    if nows != [] {
      var init, now := nows[..|nows| - 1], nows[|nows| - 1];
      LimiterRefinesNaive(init, quota);
      assert init + [now] == nows;
      PrunedDequeAgreesWithHistory(init, now, quota);
    }
  }

  // How many of `accepted` lie in the window of length `span` that starts at `x`.
  function CountInWindow(accepted: seq<Instant>, x: Instant, span: int): nat {
    if accepted == [] then 0
    else CountInWindow(accepted[..|accepted| - 1], x, span)
         + (if x <= accepted[|accepted| - 1] < x + span then 1 else 0)
  }

  lemma {:induction false} WindowIsWithin(accepted: seq<Instant>, x: Instant, now: Instant, span: int)
    requires x <= now < x + span
    ensures CountInWindow(accepted, x, span) <= Within(accepted, now, span)
  {
    if accepted != [] {
      WindowIsWithin(accepted[..|accepted| - 1], x, now, span);
    }
  }

  lemma OneMoreInWindow(history: seq<Instant>, now: Instant, x: Instant, span: int, quota: nat)
    requires CountInWindow(history, x, span) <= quota && Within(history, now, span) < quota
    ensures CountInWindow(history + [now], x, span) <= quota
  {
    assert (history + [now])[..|history|] == history;
    if x <= now < x + span {
      WindowIsWithin(history, x, now, span);
    }
  }

  /** In every order of timestamps: wherever a window of 60 seconds less the lag is laid, at most `quota` of
      the writes let through fall into it. In order, that is every window of 60 seconds. */
  lemma {:induction false} EveryWindowIsBounded(nows: seq<Instant>, quota: nat, lag: nat, x: Instant)
    requires 0 < quota < U32_SIZE && LagsBy(nows, lag)
    ensures CountInWindow(LetThrough(nows, quota), x, WINDOW - lag) <= quota
  {
    if nows != [] {
      var init, now := nows[..|nows| - 1], nows[|nows| - 1];
      EveryWindowIsBounded(init, quota, lag, x);
      assert init + [now] == nows;
      LimiterIsSandwiched(init, now, quota, lag);
      if DequeAccepts(DequeRun(init, quota), now, quota) {
        OneMoreInWindow(LetThrough(init, quota), now, x, WINDOW - lag, quota);
      }
    }
  }

  // ----- exactly what goes wrong out of order -----

  function ExpiredCount(hits: seq<Instant>, now: Instant): nat {
    if hits == [] then 0
    else ExpiredCount(hits[..|hits| - 1], now) + (if Expired(now, hits[|hits| - 1]) then 1 else 0)
  }

  lemma {:induction false} FreshConcat(s: seq<Instant>, t: seq<Instant>, now: Instant)
    ensures FreshCount(s + t, now) == FreshCount(s, now) + FreshCount(t, now)
  {
    if t == [] {
      assert s + t == s;
    } else {
      assert (s + t)[..|s + t| - 1] == s + t[..|t| - 1];
      FreshConcat(s, t[..|t| - 1], now);
    }
  }

  lemma {:induction false} FreshOrExpired(hits: seq<Instant>, now: Instant)
    ensures FreshCount(hits, now) + ExpiredCount(hits, now) == |hits|
  {
    if hits != [] {
      FreshOrExpired(hits[..|hits| - 1], now);
    }
  }

  lemma {:induction false} NoneExpired(hits: seq<Instant>, now: Instant)
    requires forall i :: 0 <= i < |hits| ==> !Expired(now, hits[i])
    ensures ExpiredCount(hits, now) == 0
  {
    if hits != [] {
      NoneExpired(hits[..|hits| - 1], now);
    }
  }

  lemma {:induction false} NoneFresh(hits: seq<Instant>, now: Instant)
    ensures FreshCount(hits, now) == 0 <==> forall i :: 0 <= i < |hits| ==> Expired(now, hits[i])
  {
    if hits != [] {
      var init, n := hits[..|hits| - 1], |hits| - 1;
      NoneFresh(init, now);
      assert (forall i :: 0 <= i < |init| ==> Expired(now, init[i]))
        <==> (forall i :: 0 <= i < n ==> Expired(now, hits[i]));
    }
  }

  lemma SplitCounts(history: seq<Instant>, gap: nat, k: nat, now: Instant)
    requires gap + k <= |history| && forall i :: gap <= i < gap + k ==> Expired(now, history[i])
    ensures |history| - gap - k
         == FreshCount(history, now) - FreshCount(history[..gap], now) + ExpiredCount(history[gap + k..], now)
  {
    var old', popped, rest := history[..gap], history[gap..gap + k], history[gap + k..];
    assert history == old' + (popped + rest);
    FreshConcat(old', popped + rest, now);
    FreshConcat(popped, rest, now);
    NoneFresh(popped, now);
    FreshOrExpired(rest, now);
  }

  /** For attempts in any order: the pruned deque counts the fresh writes of the history, less those it has
      forgotten although they are fresh, plus the expired ones stuck behind a fresh front. */
  lemma PrunedLengthExactly(nows: seq<Instant>, now: Instant, quota: nat)
    ensures 0 <= Forgotten(nows, quota) <= |LetThrough(nows, quota)|
    ensures var history, pruned := LetThrough(nows, quota), Prune(DequeRun(nows, quota), now);
      |pruned| == FreshCount(history, now) - FreshCount(history[..Forgotten(nows, quota)], now)
                  + ExpiredCount(pruned, now)
  {
    var gap, g := PrunedIsTail(nows, now, quota);
    SplitCounts(LetThrough(nows, quota), gap, g - gap, now);
  }

  lemma DroppedInOrder(nows: seq<Instant>, now: Instant, quota: nat, i: nat)
    requires InOrder(nows + [now]) && i < |LetThrough(nows, quota)|
    ensures i < |LetThrough(nows, quota)| - |Prune(DequeRun(nows, quota), now)|
       <==> Expired(now, LetThrough(nows, quota)[i])
  {
    if i < |LetThrough(nows, quota)| - |Prune(DequeRun(nows, quota), now)| {
      OnlyOldIsDropped(nows, now, quota, 0, i);
    } else {
      OnlyYoungIsKept(nows, now, quota, 0, i);
    }
  }

  lemma ForgottenAfter(init: seq<Instant>, newest: Instant, quota: nat)
    ensures Forgotten(init + [newest], quota) == |LetThrough(init, quota)| - |Prune(DequeRun(init, quota), newest)|
  {
    RunOneMore(init, newest, quota);
  }

  // In order, the deque has forgotten exactly what had expired at the newest attempt.
  lemma ForgottenInOrder(init: seq<Instant>, newest: Instant, quota: nat, i: nat)
    requires InOrder(init + [newest]) && i < |LetThrough(init + [newest], quota)|
    ensures i < Forgotten(init + [newest], quota) <==> Expired(newest, LetThrough(init + [newest], quota)[i])
  {
    ForgottenAfter(init, newest, quota);
    RunOneMore(init, newest, quota);
    if i < |LetThrough(init, quota)| {
      DroppedInOrder(init, newest, quota, i);
    }
  }

  lemma ForgottenMembers(nows: seq<Instant>, quota: nat, a: Instant)
    requires InOrder(nows) && nows != [] && 0 <= Forgotten(nows, quota) <= |LetThrough(nows, quota)|
    ensures a in LetThrough(nows, quota)[..Forgotten(nows, quota)]
       <==> a in LetThrough(nows, quota) && Expired(nows[|nows| - 1], a)
  {
    var init, newest := nows[..|nows| - 1], nows[|nows| - 1];
    assert init + [newest] == nows;
    var history := LetThrough(nows, quota);
    var forgotten := history[..Forgotten(nows, quota)];
    if a in history {
      var i :| 0 <= i < |history| && history[i] == a;
      ForgottenInOrder(init, newest, quota, i);
      assert i < |forgotten| ==> forgotten[i] == a;
    }
    if a in forgotten {
      var i :| 0 <= i < |forgotten| && forgotten[i] == a;
      ForgottenInOrder(init, newest, quota, i);
      assert history[i] == a;
    }
  }

  // With a history in order nothing expired is stuck: whatever follows a fresh front is fresh.
  lemma NothingStuckInOrder(nows: seq<Instant>, now: Instant, quota: nat)
    requires InOrder(nows)
    ensures ExpiredCount(Prune(DequeRun(nows, quota), now), now) == 0
  {
    var history := LetThrough(nows, quota);
    var gap, g := PrunedIsTail(nows, now, quota);
    HistoryInOrder(nows, quota);
    forall i | 0 <= i < |history[g..]|
      ensures !Expired(now, history[g..][i])
    {
      assert history[g] <= history[g + i];
    }
    NoneExpired(history[g..], now);
  }

  lemma HistoryInOrder(nows: seq<Instant>, quota: nat)
    requires InOrder(nows)
    ensures InOrder(LetThrough(nows, quota))
  {
    if nows != [] {
      var init, last := nows[..|nows| - 1], nows[|nows| - 1];
      assert init + [last] == nows;
      HistoryLags(init, last, quota, 0);
      HistoryInOrder(init, quota);
    }
  }

  lemma LateLength(nows: seq<Instant>, now: Instant, quota: nat)
    requires 0 < quota < U32_SIZE && InOrder(nows)
    ensures 0 <= Forgotten(nows, quota) <= |LetThrough(nows, quota)|
    ensures |Prune(DequeRun(nows, quota), now)|
         == FreshCount(LetThrough(nows, quota), now)
            - FreshCount(LetThrough(nows, quota)[..Forgotten(nows, quota)], now)
  {
    PrunedLengthExactly(nows, now, quota);
    NothingStuckInOrder(nows, now, quota);
  }

  lemma ForgottenAllExpired(nows: seq<Instant>, now: Instant, quota: nat)
    requires InOrder(nows) && nows != [] && 0 <= Forgotten(nows, quota) <= |LetThrough(nows, quota)|
    ensures FreshCount(LetThrough(nows, quota)[..Forgotten(nows, quota)], now) == 0
       <==> forall a <- LetThrough(nows, quota) :: Expired(nows[|nows| - 1], a) ==> Expired(now, a)
  {
    var history, forgotten := LetThrough(nows, quota), LetThrough(nows, quota)[..Forgotten(nows, quota)];
    NoneFresh(forgotten, now);
    forall a
      ensures a in forgotten <==> a in history && Expired(nows[|nows| - 1], a)
    {
      ForgottenMembers(nows, quota, a);
    }
    assert forall i :: 0 <= i < |forgotten| ==> forgotten[i] in forgotten;
  }

  /** One attempt with a late timestamp after attempts in order: the deque counts too few exactly when some
      write of the history had expired at the newest attempt and is fresh again at the late one, and it then
      lets through more than the history allows, by just those writes. */
  lemma LateAttemptAgreesIff(nows: seq<Instant>, now: Instant, quota: nat)
    requires 0 < quota < U32_SIZE && InOrder(nows) && nows != []
    ensures |Prune(DequeRun(nows, quota), now)| == FreshCount(LetThrough(nows, quota), now)
       <==> forall a <- LetThrough(nows, quota) :: Expired(nows[|nows| - 1], a) ==> Expired(now, a)
    ensures 0 <= Forgotten(nows, quota) <= |LetThrough(nows, quota)|
    ensures DequeAccepts(DequeRun(nows, quota), now, quota)
       <==> FreshCount(LetThrough(nows, quota), now)
              < quota + FreshCount(LetThrough(nows, quota)[..Forgotten(nows, quota)], now)
  {
    LateLength(nows, now, quota);
    AcceptsByLength(nows, now, quota);
    ForgottenAllExpired(nows, now, quota);
  }

  const MS: int := 1_000_000

  lemma FreshOfTwo(a: Instant, b: Instant, now: Instant)
    ensures FreshCount([a, b], now) == (if Expired(now, a) then 0 else 1) + (if Expired(now, b) then 0 else 1)
  {
    assert [a, b][..1] == [a] && [a][..0] == [];
    assert Within([a], now, WINDOW) == if Expired(now, a) then 0 else 1;
  }

  /** An old entry behind a newer one is not pruned, and a write that the history allows is refused. */
  lemma OutOfOrderRefusesTooMuch()
    ensures var nows := [100_000 * MS, 40_000 * MS];
            FreshCount(LetThrough(nows, 2), 101_000 * MS) < 2 && !DequeAccepts(DequeRun(nows, 2), 101_000 * MS, 2)
  {
    var a, b := 100_000 * MS, 40_000 * MS;
    RunOfOne(a, 2);
    RunOneMore([a], b, 2);
    assert Prune([a], b) == [a];
    assert [a] + [b] == [a, b];
    FreshOfTwo(a, b, 101_000 * MS);
  }

  lemma PrunedAway(a: Instant, b: Instant, now: Instant)
    requires Expired(now, a) && Expired(now, b)
    ensures Prune([a, b], now) == []
  {
    assert [a, b][1..] == [b] && [b][1..] == [];
    assert Prune([b], now) == [];
  }

  lemma FourInWindow(a: Instant, b: Instant, c: Instant, d: Instant, x: Instant)
    requires x <= a < x + WINDOW && x <= b < x + WINDOW && c >= x + WINDOW && x <= d < x + WINDOW
    ensures CountInWindow([a, b, c, d], x, WINDOW) == 3
  {
    assert [a, b, c, d][..3] == [a, b, c] && [a, b, c][..2] == [a, b] && [a, b][..1] == [a] && [a][..0] == [];
    assert CountInWindow([a], x, WINDOW) == 1;
    assert CountInWindow([a, b], x, WINDOW) == 2;
    assert CountInWindow([a, b, c], x, WINDOW) == 2;
  }

  lemma ThreeAttempts(a: Instant, b: Instant, c: Instant)
    requires a <= b < a + WINDOW && b + WINDOW <= c
    ensures DequeRun([a, b, c], 2) == [c] && LetThrough([a, b, c], 2) == [a, b, c]
  {
    RunOfOne(a, 2);
    RunOneMore([a], b, 2);
    assert Prune([a], b) == [a] && [a] + [b] == [a, b];
    RunOneMore([a, b], c, 2);
    PrunedAway(a, b, c);
    assert [a, b] + [c] == [a, b, c];
  }

  /** A late attempt after a prune is let through although the history is full, and three writes fall into
      one window of 60 seconds under a quota of two. */
  lemma OutOfOrderAdmitsTooMuch()
    ensures var nows := [100 * MS, 110 * MS, 60_200 * MS];
      && FreshCount(LetThrough(nows, 2), 60_050 * MS) >= 2
      && DequeAccepts(DequeRun(nows, 2), 60_050 * MS, 2)
      && CountInWindow(LetThrough(nows + [60_050 * MS], 2), 100 * MS, WINDOW) == 3
  {
    var a, b, c, d := 100 * MS, 110 * MS, 60_200 * MS, 60_050 * MS;
    ThreeAttempts(a, b, c);
    RunOneMore([a, b, c], d, 2);
    assert Prune([c], d) == [c] && [a, b, c] + [d] == [a, b, c, d];
    FourInWindow(a, b, c, d, a);
    FreshOfTwo(a, b, d);
    assert [a, b] + [c] == [a, b, c];
    FreshConcat([a, b], [c], d);
  }
}
