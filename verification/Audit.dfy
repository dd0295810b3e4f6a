/** The hash-chained audit log: tip search, append, whole-file verification, re-anchoring. */
module Audit {
  import opened Prelude
  import opened AuditText

  // `body` stands for the fields that no chain operation reads (ts, op, library, target, ...).
  datatype Event = Event(body: string, prevHash: Option<string>, ackBreaks: Option<seq<nat>>)

  // The foreign parts: BLAKE3 and the JSON writer and reader.
  datatype Codec = Codec(hash: string -> string, write: Event -> string, parse: string -> Option<Event>) {
    ghost predicate Injective() {
      forall a, b :: hash(a) == hash(b) ==> a == b
    }

    ghost predicate RoundTrips() {
      forall e :: parse(write(e)) == Some(e) && SingleLine(write(e))
    }

    ghost predicate Sound() {
      Injective() && RoundTrips()
    }
  }

  // ----- reading the file -----

  /** Hash of the last non-blank line. */
  function Tip(c: Codec, lines: seq<string>): Option<string> {
    if lines == [] then None
    else if !Blank(lines[|lines| - 1]) then Some(c.hash(lines[|lines| - 1]))
    else Tip(c, lines[..|lines| - 1])
  }

  predicate IsChained(c: Codec, line: string) {
    c.parse(line).Some? && c.parse(line).value.prevHash.Some?
  }

  // `n` is the 1-based number of a line whose recorded hash is not that of the line before it.
  predicate BreakLine(c: Codec, lines: seq<string>, n: nat) {
    && 2 <= n <= |lines|
    && IsChained(c, lines[n - 1])
    && c.parse(lines[n - 1]).value.prevHash.value != c.hash(lines[n - 2])
  }

  ghost function BreakSet(c: Codec, lines: seq<string>): set<nat> {
    set n: nat | n <= |lines| && BreakLine(c, lines, n)
  }

  function AcksOf(c: Codec, line: string): seq<nat> {
    match c.parse(line)
    case Some(Event(_, _, Some(acks))) => acks
    case _ => []
  }

  ghost function Acked(c: Codec, lines: seq<string>): set<nat> {
    set i, n | 0 <= i < |lines| && n in AcksOf(c, lines[i]) :: n
  }

  ghost function Unacked(c: Codec, lines: seq<string>): set<nat> {
    BreakSet(c, lines) - Acked(c, lines)
  }

  ghost function ChainedCount(c: Codec, lines: seq<string>): nat {
    |ChainedIndices(c, lines, |lines|)|
  }

  datatype Report = Report(
    total: nat, chained: nat, breaks: seq<nat>,
    acknowledged: seq<nat>, unacknowledged: seq<nat>, brokenAt: Option<nat>)

  ghost predicate ReportFor(c: Codec, lines: seq<string>, r: Report) {
    && r.total == |lines|
    && r.chained == ChainedCount(c, lines)
    && Increasing(r.breaks) && Elems(r.breaks) == BreakSet(c, lines)
    && Increasing(r.acknowledged) && Elems(r.acknowledged) == BreakSet(c, lines) * Acked(c, lines)
    && Increasing(r.unacknowledged) && Elems(r.unacknowledged) == Unacked(c, lines)
    && (r.brokenAt == None <==> Unacked(c, lines) == {})
    && (r.brokenAt.Some? ==>
          && r.brokenAt.value in Unacked(c, lines)
          && forall n <- Unacked(c, lines) :: r.brokenAt.value <= n)
  }

  // `iter().filter(..).collect()`
  function Keep(s: seq<nat>, wanted: set<nat>): (r: seq<nat>)
    ensures forall x :: x in r <==> x in s && x in wanted
    ensures Increasing(s) ==> Increasing(r)
  {
    if s == [] then []
    else
      var init, last := s[..|s| - 1], s[|s| - 1];
      assert s == init + [last];
      var kept := Keep(init, wanted);
      assert Increasing(s) ==> Increasing(kept + [last]) by {
        if Increasing(s) { IncreasingSnoc(kept, last); }
      }
      if last in wanted then kept + [last] else kept
  }

  ghost function ChainedIndices(c: Codec, lines: seq<string>, n: nat): set<nat> {
    set j: nat | 1 <= j < n && j < |lines| && IsChained(c, lines[j])
  }

  // The break numbers among the first `n` lines, in file order.
  ghost function BreakList(c: Codec, lines: seq<string>, n: nat): (r: seq<nat>)
    ensures forall k: nat :: k in r <==> k <= n && BreakLine(c, lines, k)
    ensures Increasing(r)
  {
    if n == 0 then []
    else
      var earlier := BreakList(c, lines, n - 1);
      IncreasingSnoc(earlier, n);
      if BreakLine(c, lines, n) then earlier + [n] else earlier
  }

  lemma ChainedStep(c: Codec, lines: seq<string>, i: nat)
    requires 1 <= i < |lines|
    ensures |ChainedIndices(c, lines, i + 1)|
         == |ChainedIndices(c, lines, i)| + (if IsChained(c, lines[i]) then 1 else 0)
  {
    assert ChainedIndices(c, lines, i + 1)
        == ChainedIndices(c, lines, i) + (if IsChained(c, lines[i]) then {i} else {});
  }

  lemma AckedSnoc(c: Codec, lines: seq<string>, line: string)
    ensures Acked(c, lines + [line]) == Acked(c, lines) + Elems(AcksOf(c, line))
  {
    var longer := lines + [line];
    forall n | n in Elems(AcksOf(c, line))
      ensures n in Acked(c, longer)
    {
      assert longer[|lines|] == line;
    }
    forall n | n in Acked(c, lines)
      ensures n in Acked(c, longer)
    {
      var i :| 0 <= i < |lines| && n in AcksOf(c, lines[i]);
      assert longer[i] == lines[i];
    }
  }

  method ScanLines(c: Codec, lines: seq<string>) returns (chained: nat, breaks: seq<nat>, acknowledged: set<nat>)
    ensures chained == ChainedCount(c, lines)
    ensures breaks == BreakList(c, lines, |lines|)
    ensures acknowledged == Acked(c, lines)
  {
    chained, breaks, acknowledged := 0, [], {};
    if lines == [] {
      return;
    }
    acknowledged := Elems(AcksOf(c, lines[0]));
    assert Acked(c, lines[..1]) == acknowledged by {
      AckedSnoc(c, [], lines[0]);
      assert [] + [lines[0]] == lines[..1];
    }
    var i := 1;
    while i < |lines|
      invariant 1 <= i <= |lines|
      invariant acknowledged == Acked(c, lines[..i])
      invariant chained == |ChainedIndices(c, lines, i)|
      invariant breaks == BreakList(c, lines, i)
    {
      ChainedStep(c, lines, i);
      AckedSnoc(c, lines[..i], lines[i]);
      assert lines[..i] + [lines[i]] == lines[..i + 1];
      match c.parse(lines[i]) {
        case None =>
        case Some(ev) =>
          if ev.ackBreaks.Some? {
            acknowledged := acknowledged + Elems(ev.ackBreaks.value);
          }
          if ev.prevHash.Some? {
            chained := chained + 1;
            if ev.prevHash.value != c.hash(lines[i - 1]) {
              breaks := breaks + [i + 1];
            }
          }
      }
      i := i + 1;
    }
    assert lines[..i] == lines;
  }

  lemma KeptMembers(s: seq<nat>, wanted: set<nat>)
    ensures Elems(Keep(s, wanted)) == Elems(s) * wanted
  {
  }

  lemma FirstIsLeast(s: seq<nat>, x: nat)
    requires Increasing(s) && x in s
    ensures s[0] in s && s[0] <= x
  {
  }

  lemma BreakListMembers(c: Codec, lines: seq<string>)
    ensures Elems(BreakList(c, lines, |lines|)) == BreakSet(c, lines)
  {
  }

  // The break numbers split into the acknowledged and the open ones; the smallest open one is where the chain
  // is broken.
  lemma OpenBreaks(c: Codec, lines: seq<string>, breaks: seq<nat>, acknowledged: set<nat>) returns (open: seq<nat>)
    requires breaks == BreakList(c, lines, |lines|) && acknowledged == Acked(c, lines)
    ensures open == Keep(breaks, Elems(breaks) - acknowledged)
    ensures Increasing(breaks) && Elems(breaks) == BreakSet(c, lines)
    ensures Increasing(open) && Elems(open) == Unacked(c, lines)
    ensures open == [] <==> Unacked(c, lines) == {}
    ensures open != [] ==> open[0] in Unacked(c, lines) && forall n <- Unacked(c, lines) :: open[0] <= n
  {
    open := Keep(breaks, Elems(breaks) - acknowledged);
    BreakListMembers(c, lines);
    KeptMembers(breaks, Elems(breaks) - acknowledged);
    assert Elems(open) == Unacked(c, lines);
    assert open != [] ==> open[0] in Elems(open);
    forall n | n in Unacked(c, lines)
      ensures open != [] && open[0] <= n
    {
      assert n in Elems(open);
      FirstIsLeast(open, n);
    }
  }

  method VerifyLines(c: Codec, lines: seq<string>) returns (r: Report)
    ensures ReportFor(c, lines, r)
  {
    var chained, breaks, acknowledged := ScanLines(c, lines);
    var unacknowledged := Keep(breaks, Elems(breaks) - acknowledged);
    ghost var open := OpenBreaks(c, lines, breaks, acknowledged);
    KeptMembers(breaks, acknowledged);
    var brokenAt := if unacknowledged == [] then None else Some(unacknowledged[0]);
    r := Report(|lines|, chained, breaks, Keep(breaks, acknowledged), unacknowledged, brokenAt);
  }

  // ----- the log file -----

  // What `append_event` leaves in the file.
  function Linked(c: Codec, text: string, e: Event): Event {
    e.(prevHash := Tip(c, Lines(text)))
  }

  function Appended(c: Codec, text: string, e: Event): string {
    text + c.write(Linked(c, text, e)) + "\n"
  }

  class AuditLog {
    var text: string

    constructor (existing: string)
      ensures text == existing
    {
      text := existing;
    }

    /** The whole critical section of `append_event`, run without interference. */
    method AppendEvent(c: Codec, e: Event)
      modifies this
      ensures text == Appended(c, old(text), e)
    {
      var event := e.(prevHash := Tip(c, Lines(text)));
      text := text + c.write(event);
      text := text + "\n";
    }

    method VerifyPath(c: Codec) returns (r: Report)
      ensures ReportFor(c, Lines(text), r)
    {
      r := VerifyLines(c, Lines(text));
    }

    /** Refused when nothing is unacknowledged; otherwise the returned event is the unlinked copy. */
    method ReanchorPath(c: Codec, body: string) returns (r: Option<Event>)
      modifies this
      ensures r.None? <==> Unacked(c, Lines(old(text))) == {}
      ensures r.None? ==> text == old(text)
      ensures r.Some? ==>
        && r.value.body == body && r.value.ackBreaks.Some?
        && Increasing(r.value.ackBreaks.value)
        && Elems(r.value.ackBreaks.value) == Unacked(c, Lines(old(text)))
        && text == Appended(c, old(text), r.value)
    {
      var report := VerifyPath(c);
      if report.unacknowledged == [] {
        return None;
      }
      assert report.unacknowledged[0] in Elems(report.unacknowledged);
      var event := Event(body, None, Some(report.unacknowledged));
      AppendEvent(c, event);
      return Some(event);
    }

    method LoadAll(c: Codec) returns (events: seq<Event>)
      ensures events == Events(c, Lines(text))
    {
      events := [];
      var lines := Lines(text);
      var i := 0;
      while i < |lines|
        invariant 0 <= i <= |lines|
        invariant events == Events(c, lines[..i])
      {
        assert lines[..i + 1][..i] == lines[..i];
        if !Blank(lines[i]) {
          match c.parse(lines[i]) {
            case Some(ev) => events := events + [ev];
            case None =>
          }
        }
        i := i + 1;
      }
      assert lines[..i] == lines;
    }
  }

  function Events(c: Codec, lines: seq<string>): seq<Event> {
    if lines == [] then []
    else
      var earlier, line := Events(c, lines[..|lines| - 1]), lines[|lines| - 1];
      if !Blank(line) && c.parse(line).Some? then earlier + [c.parse(line).value] else earlier
  }

  // ----- what an append does to the chain -----

  // The literal last line is blank although an earlier one is not: the tip search and the
  // verifier then disagree about the predecessor of the next line.
  ghost predicate TailGap(lines: seq<string>) {
    && lines != [] && Blank(lines[|lines| - 1])
    && exists i :: 0 <= i < |lines| && !Blank(lines[i])
  }

  lemma {:induction false} TipIsLastNonBlank(c: Codec, lines: seq<string>)
    ensures Tip(c, lines).None? <==> forall i :: 0 <= i < |lines| ==> Blank(lines[i])
    ensures Tip(c, lines).Some? ==> exists i ::
        && 0 <= i < |lines| && !Blank(lines[i]) && Tip(c, lines) == Some(c.hash(lines[i]))
        && forall j :: i < j < |lines| ==> Blank(lines[j])
  {
    if lines != [] && Blank(lines[|lines| - 1]) {
      var init := lines[..|lines| - 1];
      TipIsLastNonBlank(c, init);
      assert forall j :: 0 <= j < |init| ==> lines[j] == init[j];
    }
  }

  lemma BreaksAfterLine(c: Codec, lines: seq<string>, line: string)
    ensures BreakSet(c, lines + [line])
         == BreakSet(c, lines) + (if BreakLine(c, lines + [line], |lines| + 1) then {|lines| + 1} else {})
    ensures Acked(c, lines + [line]) == Acked(c, lines) + Elems(AcksOf(c, line))
  {
    var longer := lines + [line];
    AckedSnoc(c, lines, line);
    assert forall n: nat | n <= |lines| :: BreakLine(c, longer, n) <==> BreakLine(c, lines, n);
  }

  /** The appended line is the only new line, and it is a break exactly when the log ended in a blank gap. */
  lemma AppendBreaksIffTailGap(c: Codec, text: string, e: Event)
    requires c.Sound() && Terminated(text)
    ensures Lines(Appended(c, text, e)) == Lines(text) + [c.write(Linked(c, text, e))]
    ensures BreakSet(c, Lines(Appended(c, text, e)))
         == BreakSet(c, Lines(text)) + (if TailGap(Lines(text)) then {|Lines(text)| + 1} else {})
    ensures !TailGap(Lines(Appended(c, text, e)))
  {
    var lines, line := Lines(text), c.write(Linked(c, text, e));
    LinesAppend(text, line);
    LinkedLineBreaksIffTailGap(c, lines, e);
    BreaksAfterLine(c, lines, line);
  }

  lemma LinkedLineBreaksIffTailGap(c: Codec, lines: seq<string>, e: Event)
    requires c.Sound()
    ensures var line := c.write(e.(prevHash := Tip(c, lines)));
            BreakLine(c, lines + [line], |lines| + 1) <==> TailGap(lines)
  {
    var linked := e.(prevHash := Tip(c, lines));
    assert c.parse(c.write(linked)) == Some(linked);
    TipIsLastNonBlank(c, lines);
    if lines != [] && TailGap(lines) {
      var i :| 0 <= i < |lines| && !Blank(lines[i]) && Tip(c, lines) == Some(c.hash(lines[i]));
      assert lines[i] != lines[|lines| - 1];
    }
  }

  /** Append, then load: the earlier events unchanged, then the new one, linked. */
  lemma LoadAfterAppend(c: Codec, text: string, e: Event)
    requires c.RoundTrips() && Terminated(text)
    ensures Events(c, Lines(Appended(c, text, e))) == Events(c, Lines(text)) + [Linked(c, text, e)]
  {
    var line := c.write(Linked(c, text, e));
    LinesAppend(text, line);
    assert (Lines(text) + [line])[..|Lines(text)|] == Lines(text);
  }

  // ----- a log written from its first line on -----

  function LogOf(c: Codec, events: seq<Event>): string {
    if events == [] then []
    else Appended(c, LogOf(c, events[..|events| - 1]), events[|events| - 1])
  }

  lemma FirstLineIsNotCounted(c: Codec, lines: seq<string>)
    requires |lines| <= 1
    ensures ChainedCount(c, lines) == 0
  {
    assert ChainedIndices(c, lines, |lines|) == {};
  }

  lemma ChainedOneMore(c: Codec, lines: seq<string>, line: string)
    ensures ChainedCount(c, lines + [line])
         == ChainedCount(c, lines) + (if lines != [] && IsChained(c, line) then 1 else 0)
  {
    var longer := lines + [line];
    if lines != [] {
      ChainedStep(c, longer, |lines|);
      assert ChainedIndices(c, longer, |lines|) == ChainedIndices(c, lines, |lines|);
    } else {
      FirstLineIsNotCounted(c, lines);
      FirstLineIsNotCounted(c, longer);
    }
  }

  // Line `k` of a log carries the hash of the line before it, the first line none.
  ghost predicate LinkedAt(c: Codec, lines: seq<string>, e: Event, k: nat)
    requires k < |lines|
  {
    c.parse(lines[k]) == Some(e.(prevHash := if k == 0 then None else Some(c.hash(lines[k - 1]))))
  }

  // The file holds the events, one per line, none blank, each linked to the line before it.
  ghost predicate WellChained(c: Codec, text: string, events: seq<Event>) {
    var lines := Lines(text);
    && Terminated(text) && |lines| == |events|
    && (forall k :: 0 <= k < |lines| ==> !Blank(lines[k]))
    && BreakSet(c, lines) == {}
    && ChainedCount(c, lines) == (if events == [] then 0 else |events| - 1)
    && forall k :: 0 <= k < |events| ==> LinkedAt(c, lines, events[k], k)
  }

  /** A log that only ever was appended to verifies: no break, every line but the first chained, every event
      there with its own body and acknowledgements, each linked to the line before it. */
  lemma {:induction false} FreshLogVerifies(c: Codec, events: seq<Event>)
    requires c.Sound()
    ensures WellChained(c, LogOf(c, events), events)
  {
    if events == [] {
      FirstLineIsNotCounted(c, []);
    } else {
      var init, last := events[..|events| - 1], events[|events| - 1];
      FreshLogVerifies(c, init);
      FreshLogOneMore(c, LogOf(c, init), init, last);
      assert init + [last] == events;
    }
  }

  lemma FreshLogOneMore(c: Codec, text: string, events: seq<Event>, e: Event)
    requires c.Sound() && WellChained(c, text, events)
    ensures WellChained(c, Appended(c, text, e), events + [e])
  {
    var lines, linked := Lines(text), Linked(c, text, e);
    AppendBreaksIffTailGap(c, text, e);
    assert c.parse(c.write(linked)) == Some(linked) && SingleLine(c.write(linked));
    ChainedOneMore(c, lines, c.write(linked));
    assert Tip(c, lines) == if lines == [] then None else Some(c.hash(lines[|lines| - 1]));
    forall k | 0 <= k < |events + [e]|
      ensures LinkedAt(c, lines + [c.write(linked)], (events + [e])[k], k)
    {
      if k < |events| {
        assert LinkedAt(c, lines, events[k], k);
      }
    }
  }

  // The event a line loads as, if any, as a sequence of at most one.
  function Loaded(c: Codec, line: string): seq<Event> {
    if !Blank(line) && c.parse(line).Some? then [c.parse(line).value] else []
  }

  lemma {:induction false} EventsConcat(c: Codec, a: seq<string>, b: seq<string>)
    ensures Events(c, a + b) == Events(c, a) + Events(c, b)
  {
    if b == [] {
      assert a + b == a;
    } else {
      var init, last := b[..|b| - 1], b[|b| - 1];
      EventsConcat(c, a, init);
      EventsSnoc(c, a + init, last);
      EventsSnoc(c, init, last);
      assert a + b == a + init + [last] && b == init + [last];
    }
  }

  /** Blank lines load nothing, wherever they stand; nor do lines that do not parse. */
  lemma {:induction false} OnlyEventsLoad(c: Codec, before: seq<string>, line: string, after: seq<string>)
    requires (forall i :: 0 <= i < |line| ==> IsSpace(line[i])) || c.parse(line).None?
    ensures Events(c, before + [line] + after) == Events(c, before + after)
  {
    EventsConcat(c, before + [line], after);
    EventsConcat(c, before, after);
    EventsSnoc(c, before, line);
  }

  lemma EventsSnoc(c: Codec, lines: seq<string>, line: string)
    ensures Events(c, lines + [line]) == Events(c, lines) + Loaded(c, line)
  {
    assert (lines + [line])[..|lines|] == lines;
  }

  /** After a torn write the next event is glued to the torn line: no line is added, the torn line's event is
      gone, and in its place stands whatever the glued line loads as. */
  lemma TornTailSwallowsNextEvent(c: Codec, base: string, tail: string, e: Event)
    requires c.RoundTrips() && Terminated(base) && tail != [] && '\n' !in tail
    ensures var text := base + tail;
            var glued := tail + c.write(Linked(c, text, e));
      && Lines(text) == Lines(base) + [tail]
      && Lines(Appended(c, text, e)) == Lines(base) + [glued]
      && Events(c, Lines(text)) == Events(c, Lines(base)) + Loaded(c, tail)
      && Events(c, Lines(Appended(c, text, e))) == Events(c, Lines(base)) + Loaded(c, glued)
      && !Blank(glued)
  {
    var line := c.write(Linked(c, base + tail, e));
    UnterminatedTail(base, tail);
    LinesAppendTorn(base, tail, line);
    GluedIsSingleLine(tail, line);
    EventsSnoc(c, Lines(base), tail);
    EventsSnoc(c, Lines(base), tail + line);
  }

  lemma OneMoreEvent(events: seq<Event>, before: seq<Event>, after: seq<Event>, e: Event)
    requires |before| <= 1 && |after| <= 1
    ensures events + after == events + before + [e] <==> before == [] && after == [e]
  {
    if events + after == events + before + [e] {
      assert |after| == |before| + 1;
      assert (events + after)[|events|] == after[0];
      assert (events + before + [e])[|events|] == e;
    }
  }

  /** The append survives a torn tail exactly if the torn line was no loadable event and the glued line
      parses as the new one. */
  lemma TornAppendSurvivesIff(c: Codec, base: string, tail: string, e: Event)
    requires c.RoundTrips() && Terminated(base) && tail != [] && '\n' !in tail
    ensures Events(c, Lines(Appended(c, base + tail, e)))
         == Events(c, Lines(base + tail)) + [Linked(c, base + tail, e)]
       <==> && c.parse(tail + c.write(Linked(c, base + tail, e))) == Some(Linked(c, base + tail, e))
            && (Blank(tail) || c.parse(tail).None?)
  {
    var linked := Linked(c, base + tail, e);
    TornTailSwallowsNextEvent(c, base, tail, e);
    OneMoreEvent(Events(c, Lines(base)), Loaded(c, tail), Loaded(c, tail + c.write(linked)), linked);
  }

  /** The write that dies between the line and its newline: the event was loadable, and the next append
      destroys it. The new event is lost with it unless the two lines glued together parse. */
  lemma MissingNewlineDestroysEvent(c: Codec, base: string, first: Event, e: Event)
    requires c.RoundTrips() && Terminated(base)
    ensures var text := base + c.write(first);
      var after := Events(c, Lines(Appended(c, text, e)));
      var glued := c.write(first) + c.write(Linked(c, text, e));
      && Events(c, Lines(text)) == Events(c, Lines(base)) + [first]
      && after != Events(c, Lines(text)) + [Linked(c, text, e)]
      && after == Events(c, Lines(base)) + Loaded(c, glued)
      && (Loaded(c, glued) == [] <==> c.parse(glued).None?)
  {
    assert c.parse(c.write(first)) == Some(first) && SingleLine(c.write(first));
    TornTailSwallowsNextEvent(c, base, c.write(first), e);
    TornAppendSurvivesIff(c, base, c.write(first), e);
  }

  /** Re-anchoring with nobody else writing settles every break exactly when the log does not end in a blank
      gap: in a gap the re-anchoring event is itself a new break, open unless it was forged as acknowledged. */
  lemma ReanchorSettlesIffNoGap(c: Codec, text: string, e: Event)
    requires c.Sound() && Terminated(text)
    requires e.ackBreaks.Some? && Elems(e.ackBreaks.value) == Unacked(c, Lines(text))
    ensures Unacked(c, Lines(Appended(c, text, e))) == {}
       <==> !TailGap(Lines(text)) || |Lines(text)| + 1 in Acked(c, Lines(text))
  {
    var lines, linked := Lines(text), Linked(c, text, e);
    AppendBreaksIffTailGap(c, text, e);
    BreaksAfterLine(c, lines, c.write(linked));
    assert c.parse(c.write(linked)) == Some(linked);
    var after := Lines(Appended(c, text, e));
    assert forall n <- BreakSet(c, lines) :: n in Unacked(c, lines) || n in Acked(c, lines);
    assert |lines| + 1 !in BreakSet(c, lines);
    if TailGap(lines) {
      assert |lines| + 1 in BreakSet(c, after);
      assert |lines| + 1 in Unacked(c, after) <==> |lines| + 1 !in Acked(c, lines);
    }
  }

  // ----- tamper evidence -----

  // Every line after the first is chained and verifies.
  ghost predicate Intact(c: Codec, lines: seq<string>) {
    && BreakSet(c, lines) == {}
    && forall i :: 1 <= i < |lines| ==> IsChained(c, lines[i])
  }

  lemma IntactLink(c: Codec, lines: seq<string>, i: nat)
    requires Intact(c, lines) && i + 1 < |lines|
    ensures IsChained(c, lines[i + 1])
    ensures c.parse(lines[i + 1]).value.prevHash.value == c.hash(lines[i])
  {
    assert i + 2 !in BreakSet(c, lines);
  }

  // Counted from the end, the k-th lines of two intact logs with one tip agree.
  lemma {:induction false} IntactLogsAgree(c: Codec, a: seq<string>, b: seq<string>, k: nat)
    requires c.Injective() && Intact(c, a) && Intact(c, b)
    requires a != [] && b != [] && a[|a| - 1] == b[|b| - 1]
    requires 1 <= k <= |a| && k <= |b|
    ensures a[|a| - k] == b[|b| - k]
  {
    if k > 1 {
      IntactLogsAgree(c, a, b, k - 1);
      IntactLink(c, a, |a| - k);
      IntactLink(c, b, |b| - k);
    }
  }

  /** The last line fixes the whole log: same tip, both intact, then identical - whether the
      lengths are known to agree, or both logs start with an unchained first entry. */
  lemma SameTipSameLog(c: Codec, a: seq<string>, b: seq<string>)
    requires c.Injective() && Intact(c, a) && Intact(c, b)
    requires a != [] && b != [] && a[|a| - 1] == b[|b| - 1]
    requires |a| == |b| || (!IsChained(c, a[0]) && !IsChained(c, b[0]))
    ensures a == b
  {
    IntactLogsAgree(c, a, b, if |a| <= |b| then |a| else |b|);
    forall i | 0 <= i < |a| && |a| == |b|
      ensures a[i] == b[i]
    {
      IntactLogsAgree(c, a, b, |a| - i);
    }
  }

  /** Nothing is assumed of the edited log except its length and its tip: the line after the last
      edited one is reported. */
  lemma EditForcesLaterBreak(c: Codec, a: seq<string>, b: seq<string>)
    requires c.Injective() && Intact(c, a)
    requires a != [] && |a| == |b| && a[|a| - 1] == b[|b| - 1] && a != b
    ensures exists i :: 0 <= i < |a| - 1 && a[i] != b[i] && a[i + 1..] == b[i + 1..] && i + 2 in BreakSet(c, b)
  {
    assert a[0..] == a && b[0..] == b;
    var i := |a| - 1;
    while a[i] == b[i]
      invariant 0 <= i < |a| && a[i + 1..] == b[i + 1..]
      decreases i
    {
      assert a[i..] == [a[i]] + a[i + 1..] && b[i..] == [b[i]] + b[i + 1..];
      i := i - 1;
    }
    assert a[i + 1] == a[i + 1..][0] == b[i + 1..][0] == b[i + 1];
    IntactLink(c, a, i);
    assert BreakLine(c, b, i + 2);
  }

  /** One edited line is reported on the line after it, and besides only on itself if its own link is wrong. */
  lemma SingleEditBreaks(c: Codec, a: seq<string>, i: nat, x: string)
    requires c.Injective() && Intact(c, a) && i < |a| && x != a[i]
    ensures BreakSet(c, a[i := x])
         == (if i + 1 < |a| then {i + 2} else {}) + (if BreakLine(c, a[i := x], i + 1) then {i + 1} else {})
  {
    var b := a[i := x];
    forall n: nat | n <= |b| && n != i + 1
      ensures BreakLine(c, b, n) <==> n == i + 2
    {
      if 2 <= n {
        IntactLink(c, a, n - 2);
      }
    }
  }
}
