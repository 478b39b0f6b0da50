/** Whole runs of the video receiver. */
module VideoRun {
  import opened Basics
  import opened VideoGap
  import opened VideoReceiver
  import opened VideoSpec
  import Frames = FrameProcessor

  ghost function Start(): State {
    State(Progress([], -1, false), 0, 0, 0, Idr(false, 0, []), [], 0)
  }

  /** The state after the packets of a script. */
  ghost function Outcome(script: seq<Arrival>, profilesCount: nat, hasCallback: bool): State {
    if script == [] then Start()
    else Arrived(Outcome(script[..|script| - 1], profilesCount, hasCallback),
                 script[|script| - 1], profilesCount, hasCallback)
  }

  /** The gaps that the packets of a script reveal. */
  ghost function GapsOf(script: seq<Arrival>, profilesCount: nat, hasCallback: bool): seq<Range> {
    if script == [] then []
    else
      var before := script[..|script| - 1];
      GapsOf(before, profilesCount, hasCallback)
      + GapsBy(Outcome(before, profilesCount, hasCallback), script[|script| - 1], profilesCount, hasCallback)
  }

  /** When the last packet has been dealt with. */
  function Clock(script: seq<Arrival>): nat {
    if script == [] then 0 else script[|script| - 1].second.nowMs
  }

  /** Time does not run backwards, and each packet is of a frame within half the range of indices of the current one. */
  ghost predicate Admissible(script: seq<Arrival>, profilesCount: nat, hasCallback: bool) {
    script == [] || (var before, a := script[..|script| - 1], script[|script| - 1];
                     && Admissible(before, profilesCount, hasCallback)
                     && a.After(Clock(before)) && a.Near(Outcome(before, profilesCount, hasCallback).progress.cur))
  }

  ghost predicate HasPacket(script: seq<Arrival>, frame: int) {
    exists i :: 0 <= i < |script| && script[i].frame == frame
  }

  lemma HasPacketMore(script: seq<Arrival>, a: Arrival, frame: int)
    ensures HasPacket(script + [a], frame) <==> HasPacket(script, frame) || frame == a.frame
  {
    if HasPacket(script, frame) {
      var i :| 0 <= i < |script| && script[i].frame == frame;
      assert (script + [a])[i].frame == frame;
    }
    assert (script + [a])[|script|] == a;
  }

  /** The frames of a log are all among those of which packets have arrived. */
  ghost predicate AllArrived(log: seq<Entry>, script: seq<Arrival>) {
    forall i :: 0 <= i < |log| && log[i].Submitted? ==> HasPacket(script, log[i].frame)
  }

  lemma EndedArrived(s: State, f: Flushing, hasCallback: bool, script: seq<Arrival>)
    requires AllArrived(s.progress.log, script) && (s.progress.cur >= 0 ==> HasPacket(script, s.progress.cur))
    ensures AllArrived(Ended(s, f, hasCallback).progress.log, script)
  {
  }

  lemma ArrivedMore(log: seq<Entry>, script: seq<Arrival>, a: Arrival)
    requires AllArrived(log, script)
    ensures AllArrived(log, script + [a])
  {
    forall i | 0 <= i < |log| && log[i].Submitted? ensures HasPacket(script + [a], log[i].frame) {
      HasPacketMore(script, a, log[i].frame);
    }
  }

  lemma StepArrived(s: State, a: Arrival, profilesCount: nat, hasCallback: bool, script: seq<Arrival>)
    requires AllArrived(s.progress.log, script) && (s.progress.cur >= 0 ==> HasPacket(script, s.progress.cur))
    requires HasPacket(script, a.frame)
    ensures var p := Arrived(s, a, profilesCount, hasCallback).progress;
            AllArrived(p.log, script) && (p.cur >= 0 ==> HasPacket(script, p.cur))
  {
    hide Ended, AllArrived, HasPacket, GapFlushed, Detected, DeadlineAfter, GapBefore;
    var g := DueReported(s, a.nowMs);
    EndedArrived(g, a.first, hasCallback, script);
    var g' := if Begins(g.progress.cur, a, profilesCount) then NewFrame(g, a, hasCallback) else g;
    EndedArrived(g', a.second, hasCallback, script);
  }

  lemma OutcomeMore(script: seq<Arrival>, a: Arrival, profilesCount: nat, hasCallback: bool)
    ensures Outcome(script + [a], profilesCount, hasCallback)
         == Arrived(Outcome(script, profilesCount, hasCallback), a, profilesCount, hasCallback)
  {
    assert (script + [a])[..|script|] == script;
  }

  lemma {:induction false} LogArrived(script: seq<Arrival>, profilesCount: nat, hasCallback: bool)
    ensures var p := Outcome(script, profilesCount, hasCallback).progress;
            AllArrived(p.log, script) && (p.cur >= 0 ==> HasPacket(script, p.cur))
  {
    if script != [] {
      hide Arrived, AllArrived, HasPacket, Outcome;
      var before, a := script[..|script| - 1], script[|script| - 1];
      var s := Outcome(before, profilesCount, hasCallback);
      LogArrived(before, profilesCount, hasCallback);
      assert script == before + [a];
      HasPacketMore(before, a, s.progress.cur);
      HasPacketMore(before, a, a.frame);
      ArrivedMore(s.progress.log, before, a);
      StepArrived(s, a, profilesCount, hasCallback, script);
      OutcomeMore(before, a, profilesCount, hasCallback);
    } else {
      assert AllArrived([], script);
    }
  }

  /** Frames are submitted in strictly increasing order, so none twice; and a frame that refers to another refers
      to one of the latest accepted since the references were last reset. */
  ghost predicate Safe(log: seq<Entry>) {
    && (forall i, j :: 0 <= i < j < |log| && log[i].Submitted? && log[j].Submitted? ==> log[i].frame < log[j].frame)
    && (forall i :: 0 <= i < |log| && log[i].Submitted? && log[i].reference.Some? ==>
          ReferenceIndex(Index(log[i].frame), log[i].reference.value) in References(log[..i]))
  }

  lemma LogIsSafe(log: Log)
    ensures Safe(log)
  {
    forall i | 0 <= i < |log|
      ensures Follows(log[..i], log[i])
      ensures forall j :: 0 <= j < i && log[i].Submitted? && log[j].Submitted? ==> log[j].frame < log[i].frame
    {
      EachFollows(log, i);
    }
  }

  ghost function ReferenceAt(refs: seq<u16>, k: nat): int {
    var j: int := REFERENCES - 1 - k;
    if 0 <= j < |refs| then refs[j] else -1
  }

  /** The reference array that belongs to a log: the latest accepted frames, the newest first, at the end. */
  ghost function ReferenceArray(log: seq<Entry>): (r: seq<int>)
    ensures |r| == REFERENCES
  {
    seq<int>(REFERENCES, k requires 0 <= k < REFERENCES => ReferenceAt(References(log), k))
  }

  ghost predicate AllSpaced(times: seq<nat>) {
    forall i, j :: 0 <= i < j < |times| ==> times[j] >= times[i] + 100
  }

  /** The gaps seen over a run are those revealed by its packets. */
  lemma {:induction false} SeenAre(script: seq<Arrival>, profilesCount: nat, hasCallback: bool)
    ensures SeenIn(Outcome(script, profilesCount, hasCallback).ledger) == GapsOf(script, profilesCount, hasCallback)
  {
    if script != [] { SeenAre(script[..|script| - 1], profilesCount, hasCallback); }
  }

  /** The gaps that packet `n` reveals are on record, among the steps that it adds. */
  ghost predicate Recorded(script: seq<Arrival>, n: nat, ledger: seq<Step>, profilesCount: nat, hasCallback: bool)
    requires n < |script|
  {
    var before := Outcome(script[..n], profilesCount, hasCallback);
    var after := Outcome(script[..n + 1], profilesCount, hasCallback);
    forall gap :: gap in GapsBy(before, script[n], profilesCount, hasCallback) ==>
      exists p :: |before.ledger| <= p < |after.ledger| && p < |ledger| && ledger[p] == Step.Seen(gap)
  }

  ghost predicate AllRecorded(script: seq<Arrival>, ledger: seq<Step>, profilesCount: nat, hasCallback: bool) {
    forall n :: 0 <= n < |script| ==> Recorded(script, n, ledger, profilesCount, hasCallback)
  }

  /** Nothing is struck from the ledger. */
  lemma {:induction false} LedgerGrows(script: seq<Arrival>, n: nat, profilesCount: nat, hasCallback: bool)
    requires n <= |script|
    ensures Outcome(script[..n], profilesCount, hasCallback).ledger
         <= Outcome(script, profilesCount, hasCallback).ledger
  {
    hide Arrived, InOrder, InSequence, Spaced, SeenIn;
    if n < |script| {
      var before := script[..|script| - 1];
      LedgerGrows(before, n, profilesCount, hasCallback);
      assert before[..n] == script[..n];
    } else {
      assert script[..n] == script;
    }
  }

  lemma PacketRecorded(script: seq<Arrival>, n: nat, profilesCount: nat, hasCallback: bool)
    requires n < |script|
    ensures Recorded(script, n, Outcome(script, profilesCount, hasCallback).ledger, profilesCount, hasCallback)
  {
    hide Arrived, GapsBy, InOrder, InSequence, Spaced, SeenIn;
    var before := Outcome(script[..n], profilesCount, hasCallback);
    var after := Outcome(script[..n + 1], profilesCount, hasCallback);
    assert script[..n + 1][..n] == script[..n];
    LedgerGrows(script, n + 1, profilesCount, hasCallback);
    OneGap(before, script[n], profilesCount, hasCallback);
    forall gap | gap in GapsBy(before, script[n], profilesCount, hasCallback)
      ensures exists p :: |before.ledger| <= p < |after.ledger|
                          && p < |Outcome(script, profilesCount, hasCallback).ledger|
                          && Outcome(script, profilesCount, hasCallback).ledger[p] == Step.Seen(gap)
    {
      assert GapsBy(before, script[n], profilesCount, hasCallback) == [gap];
      SeenAmong(before.ledger, after.ledger, gap);
      var p :| |before.ledger| <= p < |after.ledger| && after.ledger[p] == Step.Seen(gap);
      assert Outcome(script, profilesCount, hasCallback).ledger[p] == after.ledger[p];
    }
  }

  lemma OneGap(s: State, a: Arrival, profilesCount: nat, hasCallback: bool)
    ensures |GapsBy(s, a, profilesCount, hasCallback)| <= 1
  {
  }

  /** The array holds the latest, up to sixteen, of the frames accepted since the last reset, the newest first, at its
      end. */
  ghost predicate ArrayHolds(references: seq<int>, log: seq<Entry>) {
    && |references| == 16
    && (exists at :: ReferencesAt(log, References(log), at))
    && forall k :: 0 <= k < 16 ==> references[k] == if 15 - k < |References(log)| then References(log)[15 - k] else -1
  }

  lemma ArrayIs(log: seq<Entry>)
    ensures ArrayHolds(ReferenceArray(log), log)
  {
    var at := ReferencesAre(log);
    assert forall k :: 0 <= k < 16 ==> ReferenceArray(log)[k] == ReferenceAt(References(log), k);
  }

  /** After any run, a gap that is held is not yet due, and is shorter than 12 frames. */
  lemma RunHeldInTime(script: seq<Arrival>, profilesCount: nat, hasCallback: bool)
    ensures var s := Outcome(script, profilesCount, hasCallback);
            HeldAfter(s.ledger).Some? ==>
              script != [] && script[|script| - 1].nowMs < s.deadlineMs && Extent(HeldAfter(s.ledger).value) + 1 < 12
  {
    hide Arrived;
    if script != [] {
      var before := Outcome(script[..|script| - 1], profilesCount, hasCallback);
      HeldInTime(before, script[|script| - 1], profilesCount, hasCallback);
    }
  }

  /** The packet ends the frame before its own, which could not be recovered or is skipped. */
  predicate FirstFails(s: State, a: Arrival) {
    && a.frame > s.progress.cur >= 0 && !s.progress.flushed && !a.flushPossible && a.first.idrSent
    && (s.missing >= 3 || a.first.result == Frames.FecFailed)
  }

  /** The packet ends its own frame, which could not be recovered. */
  predicate SecondFails(s: State, a: Arrival) {
    && a.flushPossible && (a.frame == s.progress.cur ==> !s.progress.flushed)
    && a.second.idrSent && a.second.result == Frames.FecFailed
  }

  /** Whatever has happened before: when a packet leads to a frame that could not be recovered, or that is skipped in a
      cascade, and requests can be sent, then a key frame has just been asked for or is awaited. */
  lemma RunAsks(script: seq<Arrival>, a: Arrival, profilesCount: nat, hasCallback: bool)
    requires var cur := Outcome(script, profilesCount, hasCallback).progress.cur;
             a.frame >= cur && a.stream < profilesCount
    ensures var s, i := Outcome(script, profilesCount, hasCallback),
                        Outcome(script + [a], profilesCount, hasCallback).idr;
            && (FirstFails(s, a) ==> Fresh(i, a.first.nowMs))
            && (SecondFails(s, a) ==> Fresh(i, a.second.nowMs))
  {
    hide Fresh, GapFlushed, Detected, DeadlineAfter, GapBefore, Flushed;
    OutcomeMore(script, a, profilesCount, hasCallback);
    var s := Outcome(script, profilesCount, hasCallback);
    var g := DueReported(s, a.nowMs);
    if s.progress.cur >= 0 && !s.progress.flushed && a.first.idrSent
       && (s.missing >= 3 || a.first.result == Frames.FecFailed)
    {
      FailureAsks(g, a.first, hasCallback);
    }
    var g' := if Begins(g.progress.cur, a, profilesCount) then NewFrame(g, a, hasCallback) else g;
    if !g'.progress.flushed && a.second.idrSent && a.second.result == Frames.FecFailed {
      FailureAsks(g', a.second, hasCallback);
    }
  }

  /** Two packets, the second of a frame that shows that the first frame cannot be recovered: one request. */
  lemma FirstRequest(first: Arrival, second: Arrival)
    requires first.frame == 1 && first.stream == 0 && !first.flushPossible
    requires second.frame == 2 && second.stream == 0 && !second.flushPossible
    requires second.first.result == Frames.FecFailed && second.first.nowMs == 1000 && second.first.idrSent
    ensures Outcome([first, second], 1, true).idr.times == [1000]
  {
    hide *;
    NothingAsked(first);
    OutcomeMore([first], second, 1, true);
    assert [first] + [second] == [first, second];
    AsksOnce(Outcome([first], 1, true), second);
  }

  lemma NothingAsked(a: Arrival)
    requires a.frame == 1 && a.stream == 0 && !a.flushPossible
    ensures var s := Outcome([a], 1, true);
            s.progress.cur == 1 && !s.progress.flushed && s.missing == 0 && !s.idr.pending && s.idr.times == []
  {
    hide GapFlushed, Detected, DeadlineAfter, FailureBooked, GapBefore;
    assert [a][..0] == [];
  }

  lemma AsksOnce(s: State, a: Arrival)
    requires s.progress.cur == 1 && !s.progress.flushed && s.missing == 0 && !s.idr.pending && s.idr.times == []
    requires a.frame == 2 && a.stream == 0 && !a.flushPossible
    requires a.first.result == Frames.FecFailed && a.first.nowMs == 1000 && a.first.idrSent
    ensures Arrived(s, a, 1, true).idr.times == [1000]
  {
    hide GapFlushed, Detected, DeadlineAfter, FailureBooked, GapBefore, Asked;
    AskedCases(s.idr, 1000, true);
  }

  /**
   * Over every run the receiver is where the packets lead. What is submitted to the decoder is safe; the references
   * kept are the latest accepted frames; every gap revealed is on record, and is covered by the next one that becomes
   * due to be reported, or else by the one held; and key frames are never requested more often than allowed.
   */
  method Receive(script: seq<Arrival>, profilesCount: nat, hasCallback: bool)
    returns (references: seq<int>, framesLost: nat, ghost requests: seq<nat>)
    requires Admissible(script, profilesCount, hasCallback)
    ensures var s := Outcome(script, profilesCount, hasCallback);
            && Safe(s.progress.log) && AllArrived(s.progress.log, script)
            && references == ReferenceArray(s.progress.log) && ArrayHolds(references, s.progress.log)
            && framesLost == s.lost
            && AllRecorded(script, s.ledger, profilesCount, hasCallback) && GapsKept(s.ledger)
            && SeenIn(s.ledger) == GapsOf(script, profilesCount, hasCallback)
            && AllNumbers(DueIn(s.ledger)) + HeldNumbers(HeldAfter(s.ledger))
               == AllNumbers(GapsOf(script, profilesCount, hasCallback))
            && requests == s.idr.times && AllSpaced(requests)
  {
    ghost var s := Outcome(script, profilesCount, hasCallback);
    references, framesLost, requests := RunPackets(script, profilesCount, hasCallback);
    LogIsSafe(s.progress.log);
    ArrayIs(s.progress.log);
    LogArrived(script, profilesCount, hasCallback);
    AllKept(s.ledger);
    forall n | 0 <= n < |script| ensures Recorded(script, n, s.ledger, profilesCount, hasCallback) {
      PacketRecorded(script, n, profilesCount, hasCallback);
    }
    AllAccounted(s.ledger);
    SeenAre(script, profilesCount, hasCallback);
    AreSpaced(requests);
  }

  method RunPackets(script: seq<Arrival>, profilesCount: nat, hasCallback: bool)
    returns (references: seq<int>, framesLost: nat, ghost requests: Requests)
    requires Admissible(script, profilesCount, hasCallback)
    ensures var s := Outcome(script, profilesCount, hasCallback);
            references == ReferenceArray(s.progress.log) && framesLost == s.lost && requests == s.idr.times
  {
    var r := new VideoReceiver(profilesCount, hasCallback);
    var n := 0;
    while n < |script|
      invariant n <= |script| && fresh(r) && fresh(r.referenceFrames) && fresh(r.gap)
      invariant r.profilesCount == profilesCount && r.hasCallback == hasCallback
      invariant Stands(r, script[..n])
    {
      PrefixAdmissible(script, profilesCount, hasCallback, n + 1);
      Take(r, script, n);
      n := n + 1;
    }
    assert script[..n] == script;
    references, framesLost, requests := ReadOut(r, script);
  }

  method ReadOut(r: VideoReceiver, ghost script: seq<Arrival>)
    returns (references: seq<int>, framesLost: nat, ghost requests: Requests)
    requires Stands(r, script)
    ensures var s := Outcome(script, r.profilesCount, r.hasCallback);
            references == ReferenceArray(s.progress.log) && framesLost == s.lost && requests == s.idr.times
  {
    references, framesLost, requests := r.referenceFrames[..], r.framesLost, r.requests;
  }

  lemma AreSpaced(requests: Requests)
    ensures AllSpaced(requests)
  {
    forall i, j | 0 <= i < j < |requests| ensures requests[j] >= requests[i] + 100 {
      EachSpaced(requests, i, j);
    }
  }

  ghost predicate Stands(r: VideoReceiver, script: seq<Arrival>)
    reads r, r.referenceFrames, r.gap
  {
    r.Valid(Clock(script)) && r.Now() == Outcome(script, r.profilesCount, r.hasCallback)
  }

  method Take(r: VideoReceiver, script: seq<Arrival>, n: nat)
    requires n < |script| && Stands(r, script[..n]) && Admissible(script[..n + 1], r.profilesCount, r.hasCallback)
    modifies r, r.gap, r.referenceFrames
    ensures Stands(r, script[..n + 1])
  {
    assert script[..n + 1][..n] == script[..n];
    r.AvPacket(script[n], Clock(script[..n]));
  }

  lemma {:induction false} PrefixAdmissible(script: seq<Arrival>, profilesCount: nat, hasCallback: bool, n: nat)
    requires Admissible(script, profilesCount, hasCallback) && n <= |script|
    ensures Admissible(script[..n], profilesCount, hasCallback)
  {
    if n < |script| {
      PrefixAdmissible(script[..|script| - 1], profilesCount, hasCallback, n);
      assert script[..|script| - 1][..n] == script[..n];
    } else {
      assert script[..n] == script;
    }
  }
}
