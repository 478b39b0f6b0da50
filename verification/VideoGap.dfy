/** The report of missing frames that is held back for a moment, so that frames out of order can still fill the gap. */
module VideoGap {
  import opened Basics
  import SeqNum

  type u16 = x: int | 0 <= x < 0x1_0000

  /** How far it is from one number to another, upwards, with wrapping. */
  function Distance(from: u16, to: u16): u16 {
    if from <= to then to - from else to - from + 0x1_0000
  }

  lemma DistanceIs(from: u16, to: u16)
    ensures Distance(from, to) == (to - from) % SeqNum.MOD16
  {
    SeqNum.ModStep(SeqNum.MOD16, 0, to - from);
  }

  function Next(x: u16): u16 {
    if x == 0xffff then 0 else x + 1
  }

  function Previous(x: u16): u16 {
    if x == 0 then 0xffff else x - 1
  }

  /** An inclusive range of 16 bit frame numbers, which may wrap around. */
  datatype Range = Range(start: u16, end: u16)

  function Extent(r: Range): u16 {
    Distance(r.start, r.end)
  }

  predicate Within(x: u16, r: Range) {
    Distance(r.start, x) <= Extent(r)
  }

  /** The frame numbers of a range. */
  ghost function Numbers(r: Range): set<u16> {
    set x: u16 | Within(x, r)
  }

  /** A range that serial comparison can deal with. */
  predicate Short(r: Range) {
    Extent(r) < SeqNum.MOD16 / 2
  }

  /** Of two ranges with the same start, serial comparison of the ends tells which contains the other. */
  lemma LaterEnd(r: Range, r': Range)
    requires Short(r) && Short(r') && r.start == r'.start
    ensures SeqNum.Gt(SeqNum.MOD16, r'.end, r.end) <==> Extent(r) < Extent(r')
    ensures Extent(r) <= Extent(r') ==> Numbers(r) <= Numbers(r')
  {
  }

  /** A gap together with the one held, if that starts where it starts: the longer of the two. */
  function Joined(held: Option<Range>, gap: Range): Range {
    if held.Some? && held.value.start == gap.start && Extent(gap) <= Extent(held.value) then held.value else gap
  }

  lemma JoinedNumbers(held: Range, gap: Range)
    requires Short(held) && Short(gap) && held.start == gap.start
    ensures Numbers(Joined(Some(held), gap)) == Numbers(held) + Numbers(gap)
  {
    LaterEnd(held, gap);
    LaterEnd(gap, held);
  }

  /** A range answers for a gap: it starts where the gap starts, and holds all of its frame numbers. */
  ghost predicate Covers(r: Range, gap: Range) {
    r.start == gap.start && Numbers(gap) <= Numbers(r)
  }

  /** Joining loses neither the gap held, if it is one of the same start, nor the new one, and is one of the two. */
  lemma JoinedCovers(held: Option<Range>, gap: Range)
    ensures Covers(Joined(held, gap), gap)
    ensures held.Some? && held.value.start == gap.start ==> Covers(Joined(held, gap), held.value)
    ensures Joined(held, gap) == gap || Some(Joined(held, gap)) == held
  {
  }

  datatype Action = Nothing | SetPending | FlushPrevious | ExtendPending

  class GapReport {
    var pending: bool
    var start: u16
    var end: u16
    var deadlineMs: nat

    ghost predicate Valid()
      reads this
    {
      Short(Range(start, end))
    }

    /** The frame numbers still to be reported. */
    ghost function Held(): set<u16>
      reads this
    {
      if pending then Numbers(Range(start, end)) else {}
    }

    constructor ()
      ensures Valid() && !pending && deadlineMs == 0
    {
      pending, start, end, deadlineMs := false, 0, 0, 0;
    }

    /** Takes in a gap that has been seen. What was held and the new gap together are now held or handed back. */
    method Update(gap: Range, nowMs: nat, holdMs: nat) returns (action: Action, flush: Range)
      requires Valid() && Short(gap)
      modifies this
      ensures Valid() && pending && start == gap.start
      ensures action == SetPending <==> !old(pending)
      ensures action == FlushPrevious <==> old(pending) && old(start) != gap.start
      ensures action == ExtendPending <==> old(pending) && old(start) == gap.start
                                           && Extent(gap) > Extent(Range(start, old(end)))
      ensures action == FlushPrevious ==> flush == Range(old(start), old(end))
      ensures Range(start, end) == Joined(if old(pending) then Some(old(Range(start, end))) else None, gap)
      ensures Held() == Numbers(gap) + if action == FlushPrevious then {} else old(Held())
      ensures deadlineMs == if old(pending) && old(start) == gap.start then old(deadlineMs) else nowMs + holdMs
    {
      flush := Range(0, 0);
      if !pending {
        pending, start, end, deadlineMs := true, gap.start, gap.end, nowMs + holdMs;
        return SetPending, flush;
      }
      if start != gap.start {
        flush := Range(start, end);
        pending, start, end, deadlineMs := true, gap.start, gap.end, nowMs + holdMs;
        return FlushPrevious, flush;
      }
      LaterEnd(Range(start, end), gap);
      LaterEnd(gap, Range(start, end));
      if SeqNum.Gt(SeqNum.MOD16, gap.end, end) {
        end := gap.end;
        return ExtendPending, flush;
      }
      return Nothing, flush;
    }
  }

  /** What the video receiver does with the report: it adds gaps, and takes out what it sends. */
  datatype Event = Seen(gap: Range, nowMs: nat) | Take

  /** What is held after some events. */
  ghost function HeldBy(events: seq<Event>): Option<Range> {
    if events == [] then None
    else
      match events[|events| - 1]
      case Seen(gap, _) => Some(Joined(HeldBy(events[..|events| - 1]), gap))
      case Take => None
  }

  /** What leaves the report by an event: the range held, unless the event adds to that. */
  ghost function Leaving(held: Option<Range>, event: Event): seq<Range> {
    if held.Some? && (event.Take? || held.value.start != event.gap.start) then [held.value] else []
  }

  /** What has left it. */
  ghost function TakenBy(events: seq<Event>): seq<Range> {
    if events == [] then []
    else
      var before, event := events[..|events| - 1], events[|events| - 1];
      TakenBy(before) + Leaving(HeldBy(before), event)
  }

  ghost function Ranges(taken: seq<Range>, held: Option<Range>): seq<Range> {
    taken + if held.Some? then [held.value] else []
  }

  /** How many ranges have left the report once event `i` is over: a gap seen by it is in the one that comes next. */
  ghost function Place(events: seq<Event>, i: nat): nat
    requires i < |events|
  {
    |TakenBy(events[..i + 1])|
  }

  /** The range at its place answers for the gap seen by event `i`. */
  ghost predicate Answered(events: seq<Event>, ranges: seq<Range>, i: nat)
    requires i < |events| && events[i].Seen?
  {
    Place(events, i) < |ranges| && Covers(ranges[Place(events, i)], events[i].gap)
  }

  /** Range `k` is one of the gaps that have their place there. */
  ghost predicate WasSeen(events: seq<Event>, ranges: seq<Range>, k: nat)
    requires k < |ranges|
  {
    exists i :: 0 <= i < |events| && events[i].Seen? && events[i].gap == ranges[k] && Place(events, i) == k
  }

  /** Ranges that answer for the gaps seen: each gap is covered by the range that was to come next when it was seen,
      so none is lost, and each range is one of the gaps that it answers for, so none is invented. */
  ghost predicate Answers(events: seq<Event>, ranges: seq<Range>) {
    && (forall i :: 0 <= i < |events| && events[i].Seen? ==> Answered(events, ranges, i))
    && (forall k :: 0 <= k < |ranges| ==> WasSeen(events, ranges, k))
  }

  ghost function RangesBy(events: seq<Event>): seq<Range> {
    Ranges(TakenBy(events), HeldBy(events))
  }

  lemma PlaceStays(events: seq<Event>, event: Event)
    ensures forall i :: 0 <= i < |events| ==> Place(events + [event], i) == Place(events, i)
    ensures Place(events + [event], |events|) == |TakenBy(events + [event])|
  {
    forall i | 0 <= i < |events| ensures Place(events + [event], i) == Place(events, i) {
      assert (events + [event])[..i + 1] == events[..i + 1];
    }
    assert (events + [event])[..|events| + 1] == events + [event];
  }

  /** What an event does to the ranges: all of them stay or are joined with the gap seen, which may also be added. */
  lemma RangesNext(events: seq<Event>, event: Event)
    ensures var rs, rs', place := RangesBy(events), RangesBy(events + [event]), |TakenBy(events + [event])|;
            && |rs| <= |rs'| && (forall k :: 0 <= k < |rs| ==> Covers(rs'[k], rs[k]))
            && (event.Seen? ==> place < |rs'| && Covers(rs'[place], event.gap))
  {
    hide Numbers, Joined;
    assert (events + [event])[..|events|] == events;
    if event.Seen? { JoinedCovers(HeldBy(events), event.gap); }
  }

  lemma RangeIs(events: seq<Event>, event: Event, k: nat)
    requires k < |RangesBy(events + [event])|
    ensures var rs, r := RangesBy(events), RangesBy(events + [event])[k];
            (k < |rs| && r == rs[k]) || (event.Seen? && k == |TakenBy(events + [event])| && r == event.gap)
  {
    hide Numbers, Joined;
    assert (events + [event])[..|events|] == events;
    if event.Seen? { JoinedCovers(HeldBy(events), event.gap); }
  }

  lemma WasSeenAt(events: seq<Event>, ranges: seq<Range>, k: nat, i: nat)
    requires k < |ranges| && i < |events| && events[i].Seen? && events[i].gap == ranges[k] && Place(events, i) == k
    ensures WasSeen(events, ranges, k)
  {
  }

  lemma AnswersNext(events: seq<Event>, event: Event)
    requires Answers(events, RangesBy(events))
    ensures Answers(events + [event], RangesBy(events + [event]))
  {
    hide Numbers, Place, RangesBy;
    var all, rs, rs' := events + [event], RangesBy(events), RangesBy(events + [event]);
    PlaceStays(events, event);
    RangesNext(events, event);
    forall i | 0 <= i < |all| && all[i].Seen? ensures Answered(all, rs', i) {
      if i < |events| { assert Answered(events, rs, i); }
    }
    forall k | 0 <= k < |rs'| ensures WasSeen(all, rs', k) {
      RangeIs(events, event, k);
      if k < |rs| && rs'[k] == rs[k] {
        assert WasSeen(events, rs, k);
        var i :| 0 <= i < |events| && events[i].Seen? && events[i].gap == rs[k] && Place(events, i) == k;
        WasSeenAt(all, rs', k, i);
      } else {
        WasSeenAt(all, rs', k, |events|);
      }
    }
  }

  /** Over every run of the report all gaps are answered for, by the range at their place. */
  lemma {:induction false} AllAnswered(events: seq<Event>)
    ensures Answers(events, RangesBy(events))
  {
    if events != [] {
      var before, event := events[..|events| - 1], events[|events| - 1];
      AllAnswered(before);
      AnswersNext(before, event);
      assert before + [event] == events;
    }
  }

  ghost function SeenNumbers(events: seq<Event>): set<u16> {
    if events == [] then {}
    else
      SeenNumbers(events[..|events| - 1]) + match events[|events| - 1]
        case Seen(gap, _) => Numbers(gap)
        case Take => {}
  }

  ghost function AllNumbers(ranges: seq<Range>): set<u16> {
    if ranges == [] then {}
    else AllNumbers(ranges[..|ranges| - 1]) + Numbers(ranges[|ranges| - 1])
  }

  ghost predicate AllShort(events: seq<Event>) {
    forall i :: 0 <= i < |events| && events[i].Seen? ==> Short(events[i].gap)
  }

  /** The held gap was first seen by event `since`: from then on, and not before, all events saw a gap with its
      start. */
  ghost predicate FirstSeen(events: seq<Event>, since: nat, start: u16) {
    && since < |events|
    && (forall i :: since <= i < |events| ==> events[i].Seen? && events[i].gap.start == start)
    && (since == 0 || !(events[since - 1].Seen? && events[since - 1].gap.start == start))
  }

  ghost function Holding(report: GapReport): Option<Range>
    reads report
  {
    if report.pending then Some(Range(report.start, report.end)) else None
  }

  /** One event; `taken` is what leaves the report. */
  method Do(report: GapReport, event: Event, holdMs: nat) returns (taken: seq<Range>)
    requires report.Valid() && (event.Seen? ==> Short(event.gap))
    modifies report
    ensures report.Valid() && (report.pending <==> event.Seen?)
    ensures taken == Leaving(old(Holding(report)), event)
    ensures event.Seen? ==> Holding(report) == Some(Joined(old(Holding(report)), event.gap))
    ensures AllNumbers(taken) + report.Held() == old(report.Held()) + if event.Seen? then Numbers(event.gap) else {}
    ensures event.Seen? ==>
              && report.start == event.gap.start
              && report.deadlineMs == if old(report.pending) && old(report.start) == event.gap.start
                                      then old(report.deadlineMs)
                                      else event.nowMs + holdMs
  {
    taken := [];
    match event
    case Seen(gap, nowMs) =>
      var action, flush := report.Update(gap, nowMs, holdMs);
      if action == FlushPrevious {
        taken := [flush];
        assert taken[..0] == [];
      }
    case Take =>
      if report.pending {
        taken := [Range(report.start, report.end)];
        assert taken[..0] == [];
        report.pending := false;
      }
  }

  /** Where a run stands: what has been taken out and what is held, and since when. */
  ghost predicate Stands(report: GapReport, events: seq<Event>, taken: seq<Range>, since: nat, holdMs: nat)
    reads report
  {
    && report.Valid()
    && taken == TakenBy(events) && Holding(report) == HeldBy(events)
    && AllNumbers(taken) + report.Held() == SeenNumbers(events)
    && (report.pending <==> events != [] && events[|events| - 1].Seen?)
    && (report.pending ==> FirstSeen(events, since, report.start) && report.deadlineMs == events[since].nowMs + holdMs)
  }

  lemma FoldNext(events: seq<Event>, event: Event)
    ensures TakenBy(events + [event]) == TakenBy(events) + Leaving(HeldBy(events), event)
    ensures HeldBy(events + [event]) == if event.Seen? then Some(Joined(HeldBy(events), event.gap)) else None
    ensures SeenNumbers(events + [event]) == SeenNumbers(events) + if event.Seen? then Numbers(event.gap) else {}
  {
    hide Numbers, Joined, Leaving;
    assert (events + [event])[..|events|] == events;
  }

  lemma FirstSeenNext(events: seq<Event>, event: Event, pending: bool, start: u16, since: nat)
    requires event.Seen? && (pending <==> events != [] && events[|events| - 1].Seen?)
    requires pending ==> FirstSeen(events, since, start)
    ensures if pending && event.gap.start == start
            then FirstSeen(events + [event], since, start) && (events + [event])[since] == events[since]
            else FirstSeen(events + [event], |events|, event.gap.start)
  {
    if pending { assert events[|events| - 1].gap.start == start; }
  }

  method DoNext(report: GapReport, ghost events: seq<Event>, event: Event, taken: seq<Range>, ghost since: nat,
                holdMs: nat)
    returns (taken': seq<Range>, ghost since': nat)
    requires Stands(report, events, taken, since, holdMs) && (event.Seen? ==> Short(event.gap))
    modifies report
    ensures Stands(report, events + [event], taken', since', holdMs)
  {
    hide Numbers, Joined, Leaving, FirstSeen, TakenBy, HeldBy, SeenNumbers, AllNumbers;
    FoldNext(events, event);
    if event.Seen? { FirstSeenNext(events, event, report.pending, report.start, since); }
    since' := if report.pending && event.Seen? && event.gap.start == report.start then since else |events|;
    var more := Do(report, event, holdMs);
    AllNumbersAdd(taken, more);
    taken' := taken + more;
  }

  /**
   * Over every run: each gap seen is covered by the range that leaves the report next after it, or by the one held at
   * the end; each of these ranges is one of the gaps it answers for; and the held gap falls due no later than the hold
   * time after it was first seen.
   */
  method Run(events: seq<Event>, holdMs: nat)
    returns (taken: seq<Range>, held: Option<Range>, deadlineMs: nat, ghost since: nat)
    requires AllShort(events)
    ensures taken == TakenBy(events) && held == HeldBy(events) && Answers(events, Ranges(taken, held))
    ensures AllNumbers(taken) + (if held.Some? then Numbers(held.value) else {}) == SeenNumbers(events)
    ensures held.Some? <==> events != [] && events[|events| - 1].Seen?
    ensures held.Some? ==> FirstSeen(events, since, held.value.start) && deadlineMs == events[since].nowMs + holdMs
  {
    hide SeenNumbers, AllNumbers, TakenBy, HeldBy, Numbers, Answers, AllShort, Stands, Holding;
    var report := new GapReport();
    taken, since := [], 0;
    var i := 0;
    Standing(report, holdMs);
    assert events[..0] == [];
    while i < |events|
      invariant i <= |events| && fresh(report) && Stands(report, events[..i], taken, since, holdMs)
    {
      EachShort(events, i);
      taken, since := DoNext(report, events[..i], events[i], taken, since, holdMs);
      assert events[..i] + [events[i]] == events[..i + 1];
      i := i + 1;
    }
    assert events[..i] == events;
    held, deadlineMs := ReadOut(report, events, taken, since, holdMs);
    AllAnswered(events);
  }

  lemma EachShort(events: seq<Event>, i: nat)
    requires AllShort(events) && i < |events|
    ensures events[i].Seen? ==> Short(events[i].gap)
  {
  }

  lemma Standing(report: GapReport, holdMs: nat)
    requires report.Valid() && !report.pending
    ensures Stands(report, [], [], 0, holdMs)
  {
  }

  method ReadOut(report: GapReport, ghost events: seq<Event>, ghost taken: seq<Range>, ghost since: nat,
                 ghost holdMs: nat)
    returns (held: Option<Range>, deadlineMs: nat)
    requires Stands(report, events, taken, since, holdMs)
    ensures taken == TakenBy(events) && held == HeldBy(events)
    ensures AllNumbers(taken) + (if held.Some? then Numbers(held.value) else {}) == SeenNumbers(events)
    ensures held.Some? <==> events != [] && events[|events| - 1].Seen?
    ensures held.Some? ==> FirstSeen(events, since, held.value.start) && deadlineMs == events[since].nowMs + holdMs
  {
    hide SeenNumbers, AllNumbers, TakenBy, HeldBy, Numbers, FirstSeen;
    held := if report.pending then Some(Range(report.start, report.end)) else None;
    deadlineMs := report.deadlineMs;
  }

  lemma {:induction false} AllNumbersAdd(a: seq<Range>, b: seq<Range>)
    ensures AllNumbers(a + b) == AllNumbers(a) + AllNumbers(b)
  {
    if b == [] {
      assert a + b == a;
    } else {
      AllNumbersAdd(a, b[..|b| - 1]);
      assert (a + b)[..|a + b| - 1] == a + b[..|b| - 1];
    }
  }
}
