/** The video receiver: frames in, frames to the decoder out, and reports of what is missing. */
module VideoReceiver {
  import opened Basics
  import opened VideoGap
  import opened VideoSpec
  import Memory
  import SeqNum
  import Frames = FrameProcessor

  /** The array holds these references, the newest at the lowest index used. */
  ghost predicate Hold(a: array<int>, refs: seq<u16>)
    reads a
  {
    a.Length == REFERENCES && |refs| <= REFERENCES
    && forall k :: 0 <= k < REFERENCES ==> a[k] == if REFERENCES - 1 - k < |refs| then refs[REFERENCES - 1 - k] else -1
  }

  /** Puts a reference before the others; when there are as many as are kept, the oldest goes. */
  method PutReference(a: array<int>, frame: u16, ghost refs: seq<u16>)
    requires Hold(a, refs)
    modifies a
    ensures Hold(a, (if |refs| == REFERENCES then refs[1..] else refs) + [frame])
  {
    if a[0] != -1 {
      Memory.Move(a, 1, 0, REFERENCES - 1);
      a[0] := frame;
      return;
    }
    var i := REFERENCES - 1;
    while a[i] != -1
      invariant REFERENCES - 1 - |refs| <= i < REFERENCES
      decreases i
    {
      i := i - 1;
    }
    a[i] := frame;
  }

  class VideoReceiver {
    const profilesCount: nat
    const hasCallback: bool
    const referenceFrames: array<int>
    const gap: GapReport
    var profileCur: int
    var frameIndexCur: int
    var frameIndexPrev: int
    var frameIndexPrevComplete: u16
    var framesLost: nat
    var lastReported: Range
    var idrRequestPending: bool
    var idrRequestStartMs: nat
    var lastIdrRequestMs: nat
    var consecutiveMissingRef: nat

    ghost var progress: Progress
    ghost var ledger: Ledger
    ghost var requests: Requests

    ghost predicate RefsHold()
      reads this`progress, referenceFrames
    {
      Hold(referenceFrames, References(progress.log))
    }

    /** The current frame: it is flushed when its index is also the previous one. */
    ghost predicate FramesHold()
      reads this`progress, this`frameIndexCur, this`frameIndexPrev, this`frameIndexPrevComplete
    {
      && frameIndexCur == IndexOf(progress.cur)
      && (progress.cur >= 0 ==> (frameIndexPrev == frameIndexCur <==> progress.flushed))
      && (progress.cur < 0 ==> frameIndexPrev == -1)
     
    }

    ghost predicate GapsHold()
      reads this`lastReported, this`ledger, gap
    {
      && lastReported == SentAfter(ledger)
      && gap.Valid() && HeldAfter(ledger) == if gap.pending then Some(Range(gap.start, gap.end)) else None
    }

    ghost predicate RequestsHold(nowMs: nat)
      reads this`lastIdrRequestMs, this`idrRequestStartMs, this`requests
    {
      lastIdrRequestMs == LastOf(requests) <= nowMs && idrRequestStartMs <= nowMs
    }

    ghost predicate Valid(nowMs: nat)
      reads this, referenceFrames, gap
    {
      && RefsHold() && GapsHold() && RequestsHold(nowMs) && FramesHold()
      && consecutiveMissingRef <= CASCADE_SKIP_THRESHOLD && profileCur < profilesCount
    }

    ghost function IdrNow(): Idr
      reads this`idrRequestPending, this`idrRequestStartMs, this`requests
    {
      Idr(idrRequestPending, idrRequestStartMs, requests)
    }

    ghost function Now(): State
      reads this`progress, this`consecutiveMissingRef, this`frameIndexPrevComplete, this`framesLost,
            this`idrRequestPending,
            this`idrRequestStartMs, this`requests, this`ledger, gap`deadlineMs
    {
      State(progress, consecutiveMissingRef, frameIndexPrevComplete, framesLost, IdrNow(), ledger, gap.deadlineMs)
    }

    constructor (profilesCount: nat, hasCallback: bool)
      ensures this.profilesCount == profilesCount && this.hasCallback == hasCallback
      ensures Valid(0) && fresh(referenceFrames) && fresh(gap)
      ensures Now() == State(Progress([], -1, false), 0, 0, 0, Idr(false, 0, []), [], 0)
    {
      this.profilesCount, this.hasCallback := profilesCount, hasCallback;
      referenceFrames := new int[REFERENCES](_ => -1);
      gap := new GapReport();
      profileCur, frameIndexCur, frameIndexPrev, frameIndexPrevComplete := -1, -1, -1, 0;
      framesLost, lastReported, idrRequestPending, idrRequestStartMs, lastIdrRequestMs := 0, NEVER_SENT, false, 0, 0;
      consecutiveMissingRef := 0;
      progress, ledger, requests := Progress([], -1, false), [], [];
    }

    /** Whether a frame is among the latest accepted. */
    method HaveRefFrame(frame: u16) returns (have: bool)
      requires RefsHold()
      ensures have <==> frame in References(progress.log)
    {
      ghost var refs := References(progress.log);
      var i := 0;
      while i < REFERENCES
        invariant i <= REFERENCES && forall k :: 0 <= k < i ==> referenceFrames[k] != frame
      {
        if referenceFrames[i] == frame {
          assert refs[REFERENCES - 1 - i] == frame;
          return true;
        }
        i := i + 1;
      }
      assert forall j :: 0 <= j < |refs| ==> refs[j] == referenceFrames[REFERENCES - 1 - j];
      return false;
    }

    // ---- reports

    /** Sends a range unless it repeats the last one. */
    method ReportCorrupt(range: Range, ghost isGap: bool) returns (ghost report: Report)
      modifies this`lastReported
      ensures report == SentOrSkipped(range, isGap, old(lastReported))
      ensures Fits(report) && lastReported == if report.fate == Sent then range else old(lastReported)
    {
      report := Report(range, isGap, Skipped, lastReported);
      if Repeats(lastReported, range) {
        return;
      }
      report := report.(fate := Sent);
      lastReported := range;
    }

    /** The held gap is reported once it is due or long enough, and dropped when it is absurdly long. */
    method FlushGap(nowMs: nat, force: bool)
      requires GapsHold()
      modifies this`lastReported, this`ledger, gap`pending
      ensures GapsHold() && ledger == GapFlushed(old(ledger), gap.deadlineMs, nowMs, force)
    {
      if !gap.pending {
        return;
      }
      var range := Range(gap.start, gap.end);
      var span := Extent(range) + 1;
      if span > SPAN_SANITY_MAX {
        ledger := Booked(ledger, Due(Report(range, true, Suppressed, lastReported)));
        gap.pending := false;
        return;
      }
      if !force && nowMs < gap.deadlineMs && span < GAP_REPORT_FORCE_SPAN {
        return;
      }
      ghost var report := ReportCorrupt(range, true);
      ledger := Booked(ledger, Due(report));
      gap.pending := false;
    }

    /** A frame that is not the next after the last complete one reveals a gap. */
    method DetectGap(frameIndex: u16, nowMs: nat)
      requires GapsHold()
      modifies this`lastReported, this`ledger, gap
      ensures GapsHold()
      ensures var revealed := GapBefore(frameIndex, frameIndexPrevComplete, frameIndexCur);
              && ledger == Detected(old(ledger), old(gap.deadlineMs), revealed, nowMs)
              && gap.deadlineMs == DeadlineAfter(old(ledger), old(gap.deadlineMs), revealed, nowMs)
    {
      hide GapFlushed, GapHeld, HeldAfter, SentAfter, InOrder, SeenIn, Extent;
      var expected := Next(frameIndexPrevComplete);
      if SeqNum.Gt(MOD, frameIndex, expected) && !(frameIndex == 1 && frameIndexCur < 0) {
        var range := Range(expected, Previous(frameIndex));
        GapIsShort(expected, frameIndex);
        HoldGap(range, nowMs);
        FlushGap(nowMs, false);
      }
    }

    /** Adds a gap to the one held; if it cannot be joined with that, that one is reported. */
    method HoldGap(range: Range, nowMs: nat)
      requires GapsHold() && Short(range)
      modifies this`lastReported, this`ledger, gap
      ensures GapsHold() && ledger == GapHeld(old(ledger), range)
      ensures gap.deadlineMs == DeadlineAfter(old(ledger), old(gap.deadlineMs), [range], nowMs)
    {
      var action, flush := gap.Update(range, nowMs, GAP_REPORT_HOLD_MS);
      if action == FlushPrevious {
        ghost var report := ReportCorrupt(flush, true);
        ledger := Booked(ledger, Due(report));
      }
      ledger := Booked(ledger, Step.Seen(range));
    }

    // ---- key frame requests

    /** Requests a key frame, unless one has been requested of late. */
    method MaybeRequestIdr(nowMs: nat, sent: bool)
      requires RequestsHold(nowMs)
      modifies this`idrRequestPending, this`idrRequestStartMs, this`lastIdrRequestMs, this`requests
      ensures RequestsHold(nowMs)
      ensures IdrNow() == Asked(old(IdrNow()), nowMs, sent)
      ensures var due := (!old(idrRequestPending) || nowMs - old(idrRequestStartMs) > 1000)
                         && nowMs - old(lastIdrRequestMs) >= 100;
              && (due && sent ==>
                    requests == old(requests) + [nowMs] && idrRequestPending && idrRequestStartMs == nowMs)
              && (!(due && sent) ==> requests == old(requests))
              && (!(due && sent) ==>
                    (idrRequestPending <==> old(idrRequestPending) && nowMs - old(idrRequestStartMs) <= 1000))
    {
      AskedCases(IdrNow(), nowMs, sent);
      if idrRequestPending {
        if nowMs - idrRequestStartMs > IDR_REQUEST_TIMEOUT_MS {
          idrRequestPending, idrRequestStartMs := false, 0;
        }
      }
      if !idrRequestPending && nowMs - lastIdrRequestMs >= IDR_REQUEST_COOLDOWN_MS {
        if sent {
          idrRequestPending, idrRequestStartMs, lastIdrRequestMs := true, nowMs, nowMs;
          requests := Requested(requests, nowMs);
        }
      }
    }

    // ---- flushing a frame

    /** Ends the current frame: it is handed to the decoder, or dropped. */
    method FlushFrame(f: Flushing)
      requires Valid(f.nowMs) && progress.cur >= 0 && !progress.flushed
      modifies this`frameIndexPrev, this`frameIndexPrevComplete, this`framesLost, this`lastReported,
               this`idrRequestPending,
               this`idrRequestStartMs, this`lastIdrRequestMs, this`consecutiveMissingRef, this`progress, this`ledger,
               this`requests, referenceFrames
      ensures Valid(f.nowMs) && Now() == Flushed(old(Now()), f, hasCallback)
      ensures f.idrSent && (old(consecutiveMissingRef) >= 3 || f.result == Frames.FecFailed) ==>
                Fresh(IdrNow(), f.nowMs)
    {
      hide Fresh, Flushed, RefsHold, GapsHold, RequestsHold, FramesHold;
      ghost var before := Now();
      EndFrame(f);
      if f.idrSent && (before.missing >= 3 || f.result == Frames.FecFailed) { FailureAsks(before, f, hasCallback); }
    }

    /** The three ways to end a frame. */
    method EndFrame(f: Flushing)
      requires Valid(f.nowMs) && progress.cur >= 0 && !progress.flushed
      modifies this`frameIndexPrev, this`frameIndexPrevComplete, this`framesLost, this`lastReported,
               this`idrRequestPending,
               this`idrRequestStartMs, this`lastIdrRequestMs, this`consecutiveMissingRef, this`progress, this`ledger,
               this`requests, referenceFrames
      ensures Valid(f.nowMs) && Now() == Flushed(old(Now()), f, hasCallback)
    {
      hide Entered, Dropped, DecodedBy, Counted, LostWith, LostOnDecode, Decodable, References, Asked, IdrSeen, Booked,
           SentOrSkipped, InSequence, LastFrame, Spaced, SeenIn, InOrder;
      if consecutiveMissingRef >= CASCADE_SKIP_THRESHOLD {
        SkipCascade(f);
      } else if f.result == Frames.Failed || f.result == Frames.FecFailed {
        DropFrame(f);
      } else {
        DecodeFrame(f);
      }
    }

    /** After too many frames in a row without their reference, a frame is dropped unseen and the references are
        reset. */
    method SkipCascade(f: Flushing)
      requires RefsHold() && RequestsHold(f.nowMs) && FramesHold() && progress.cur >= 0 && !progress.flushed
      modifies this`frameIndexPrev, this`framesLost, this`idrRequestPending, this`idrRequestStartMs,
               this`lastIdrRequestMs,
               this`consecutiveMissingRef, this`progress, this`requests, referenceFrames
      ensures RefsHold() && RequestsHold(f.nowMs) && FramesHold() && progress == Entered(old(progress), Reset)
      ensures IdrNow() == Asked(old(IdrNow()), f.nowMs, f.idrSent)
      ensures consecutiveMissingRef == 0 && framesLost == SaturatingAdd(old(framesLost), 1)
    {
      hide References, InSequence, Spaced, Hold, LastFrame, Orderly;
      framesLost := SaturatingAdd(framesLost, 1);
      CascadeReset();
      MaybeRequestIdr(f.nowMs, f.idrSent);
      frameIndexPrev := frameIndexCur;
    }

    /** Forgets all references. */
    method CascadeReset()
      requires RefsHold() && !progress.flushed
      modifies this`consecutiveMissingRef, this`progress, referenceFrames
      ensures RefsHold() && progress == Entered(old(progress), Reset) && consecutiveMissingRef == 0
    {
      forall i | 0 <= i < REFERENCES { referenceFrames[i] := -1; }
      progress := Entered(progress, Reset);
      consecutiveMissingRef := 0;
    }

    /** A frame that could not be put together. */
    method DropFrame(f: Flushing)
      requires GapsHold() && RequestsHold(f.nowMs) && FramesHold() && progress.cur >= 0 && !progress.flushed
      modifies this`frameIndexPrev, this`framesLost, this`lastReported, this`idrRequestPending,
               this`idrRequestStartMs, this`lastIdrRequestMs, this`progress, this`ledger, this`requests
      ensures GapsHold() && RequestsHold(f.nowMs) && FramesHold() && progress == Dropped(old(progress))
      ensures ledger == FailureBooked(old(ledger), 0, f, frameIndexPrevComplete, Index(progress.cur))
      ensures IdrNow() == if f.result == Frames.FecFailed then Asked(old(IdrNow()), f.nowMs, f.idrSent)
                          else old(IdrNow())
      ensures framesLost == if f.result == Frames.FecFailed
                            then LostWith(frameIndexPrevComplete, Index(progress.cur), old(framesLost))
                            else old(framesLost)
    {
      hide Extent, LostWith, Asked, HeldAfter, SentAfter, InOrder, InSequence, Spaced, LastFrame;
      if f.result == Frames.FecFailed {
        MaybeRequestIdr(f.nowMs, f.idrSent);
        ReportFailure();
      }
      frameIndexPrev := frameIndexCur;
      progress := Dropped(progress);
    }

    /** Reports all frames since the last complete one. */
    method ReportFailure()
      requires GapsHold() && frameIndexCur == IndexOf(progress.cur) && progress.cur >= 0
      modifies this`framesLost, this`lastReported, this`ledger
      ensures GapsHold()
      ensures ledger
           == Booked(old(ledger), Due(SentOrSkipped(Range(Next(frameIndexPrevComplete), Index(progress.cur)), false,
                                                    SentAfter(old(ledger)))))
      ensures framesLost == LostWith(frameIndexPrevComplete, Index(progress.cur), old(framesLost))
    {
      var range := Range(Next(frameIndexPrevComplete), frameIndexCur);
      ghost var report := ReportCorrupt(range, false);
      ledger := Booked(ledger, Due(report));
      var lost := Extent(range) + 1;
      if lost < LOST_SPAN_SANITY {
        framesLost := SaturatingAdd(framesLost, lost);
      }
    }

    /** A frame that is whole: its slice is looked at, its reference checked, and it is submitted. */
    method DecodeFrame(f: Flushing)
      requires RefsHold() && RequestsHold(f.nowMs) && FramesHold() && progress.cur >= 0 && !progress.flushed
      modifies this`frameIndexPrev, this`frameIndexPrevComplete, this`framesLost, this`idrRequestPending,
               this`idrRequestStartMs, this`lastIdrRequestMs, this`consecutiveMissingRef, this`progress, this`requests,
               referenceFrames
      ensures RefsHold() && RequestsHold(f.nowMs) && FramesHold()
      ensures progress == DecodedBy(old(progress), f, hasCallback)
      ensures IdrNow() == IdrSeen(old(IdrNow()), f)
      ensures var refs := References(old(progress.log));
              && frameIndexPrevComplete == (if Decodable(refs, Index(progress.cur), f) && (hasCallback ==> f.ok)
                                            then Index(progress.cur)
                                            else old(frameIndexPrevComplete))
              && consecutiveMissingRef == Counted(refs, old(consecutiveMissingRef), Index(progress.cur), f, hasCallback)
              && framesLost == LostOnDecode(refs, Index(progress.cur), old(framesLost), f, hasCallback)
    {
      var succ := HandOver(f);
      frameIndexPrev := frameIndexCur;
      if succ {
        frameIndexPrevComplete := frameIndexCur;
      }
    }

    /** Looks at a whole frame and submits it, unless it lacks its reference. */
    method HandOver(f: Flushing) returns (succ: bool)
      requires RefsHold() && RequestsHold(f.nowMs) && progress.cur >= 0 && frameIndexCur == Index(progress.cur)
      requires !progress.flushed
      modifies this`framesLost, this`idrRequestPending, this`idrRequestStartMs, this`lastIdrRequestMs,
               this`consecutiveMissingRef,
               this`progress, this`requests, referenceFrames
      ensures RefsHold() && RequestsHold(f.nowMs)
      ensures progress == DecodedBy(old(progress), f, hasCallback)
      ensures IdrNow() == IdrSeen(old(IdrNow()), f)
      ensures var refs := References(old(progress.log));
              && (succ <==> Decodable(refs, Index(progress.cur), f) && (hasCallback ==> f.ok))
              && consecutiveMissingRef == Counted(refs, old(consecutiveMissingRef), Index(progress.cur), f, hasCallback)
              && framesLost == LostOnDecode(refs, Index(progress.cur), old(framesLost), f, hasCallback)
    {
      hide References, InSequence, LastFrame, Spaced, ReferenceOf, Nearest, Hold;
      LookAtSlice(f);
      succ := CheckReference(f);
      if succ && hasCallback {
        succ := Submit(f);
      } else {
        progress := Dropped(progress);
      }
    }

    /** A key frame ends the wait for one and the row of missing references. */
    method LookAtSlice(f: Flushing)
      requires RequestsHold(f.nowMs)
      modifies this`idrRequestPending, this`idrRequestStartMs, this`lastIdrRequestMs, this`consecutiveMissingRef,
               this`requests
      ensures RequestsHold(f.nowMs)
      ensures consecutiveMissingRef == if f.slice == Some(I) then 0 else old(consecutiveMissingRef)
      ensures IdrNow() == IdrSeen(old(IdrNow()), f)
    {
      if f.slice.Some? {
        if f.slice.value.I? {
          consecutiveMissingRef := 0;
        }
        if idrRequestPending {
          if f.slice.value.I? {
            idrRequestPending, idrRequestStartMs, consecutiveMissingRef := false, 0, 0;
          } else {
            MaybeRequestIdr(f.nowMs, f.idrSent);
          }
        }
      }
    }

    /** Checks that what a frame refers to is held, or changes it to the nearest frame before it that is. */
    method CheckReference(f: Flushing) returns (succ: bool)
      requires RefsHold() && progress.cur >= 0 && frameIndexCur == Index(progress.cur)
      modifies this`framesLost, this`consecutiveMissingRef
      ensures var refs := References(progress.log);
              && (succ <==> Decodable(refs, Index(progress.cur), f))
              && consecutiveMissingRef == (if Recovers(refs, Index(progress.cur), f) then 0
                                           else if succ then old(consecutiveMissingRef)
                                           else old(consecutiveMissingRef) + 1)
              && framesLost == (if succ then old(framesLost) else SaturatingAdd(old(framesLost), 1))
    {
      succ := true;
      if f.slice.None? || !f.slice.value.P? || f.slice.value.reference == NO_REFERENCE {
        return;
      }
      var reference := f.slice.value.reference;
      var have := HaveRefFrame(ReferenceIndex(frameIndexCur, reference));
      if have {
        return;
      }
      var nearest := FindNearest(NextBack(reference));
      if nearest.Some? && f.canChange {
        consecutiveMissingRef := 0;
      } else {
        succ := false;
        framesLost := SaturatingAdd(framesLost, 1);
        consecutiveMissingRef := consecutiveMissingRef + 1;
      }
    }

    method FindNearest(from: nat) returns (nearest: Option<nat>)
      requires RefsHold() && progress.cur >= 0 && frameIndexCur == Index(progress.cur)
      ensures nearest == Nearest(References(progress.log), Index(progress.cur), from)
    {
      var i := from;
      while i < REFERENCES
        invariant Nearest(References(progress.log), Index(progress.cur), from)
                   == Nearest(References(progress.log), Index(progress.cur), i)
      {
        var have := HaveRefFrame(ReferenceIndex(frameIndexCur, i));
        if have {
          return Some(i);
        }
        i := i + 1;
      }
      return None;
    }

    /** Submits the frame; one that the decoder accepts becomes a reference. */
    method Submit(f: Flushing) returns (succ: bool)
      requires RefsHold() && progress.cur >= 0 && frameIndexCur == Index(progress.cur) && !progress.flushed
      requires Decodable(References(progress.log), Index(progress.cur), f)
      modifies this`framesLost, this`consecutiveMissingRef, this`progress, referenceFrames
      ensures RefsHold() && progress == Entered(old(progress), SubmissionOf(old(progress), f))
      ensures succ == f.ok && framesLost == 0 && consecutiveMissingRef == if f.ok then 0 else old(consecutiveMissingRef)
    {
      hide References, InSequence, LastFrame, Decodable, ReferenceOf;
      ghost var refs := References(progress.log);
      ReferencesAdd(progress.log, SubmissionOf(progress, f));
      progress := Entered(progress, SubmissionOf(progress, f));
      framesLost := 0;
      if !f.ok {
        return false;
      }
      PutReference(referenceFrames, frameIndexCur, refs);
      consecutiveMissingRef := 0;
      return true;
    }

    // ---- packets

    /** Takes in a packet: it may begin a new frame, which ends the one before, and it may complete the current
        frame. */
    method AvPacket(a: Arrival, ghost nowMs: nat)
      requires Valid(nowMs) && a.After(nowMs) && a.Near(progress.cur)
      modifies this, gap, referenceFrames
      ensures Valid(a.second.nowMs) && Now() == Arrived(old(Now()), a, profilesCount, hasCallback)
    {
      hide Ended, References, InSequence, InOrder, HeldAfter, SentAfter, Spaced, Extent, LastFrame, NewFrame,
           GapFlushed;
      FlushGap(a.nowMs, false);
      var stale := IsOld(a);
      if stale {
        return;
      }
      if profileCur < 0 || profileCur != a.stream {
        if a.stream >= profilesCount {
          return;
        }
        profileCur := a.stream;
      }
      TakeIn(a);
    }

    /** Takes in a packet that is neither old nor of an unknown stream. */
    method TakeIn(a: Arrival)
      requires Valid(a.nowMs) && a.After(a.nowMs) && a.Near(progress.cur) && a.frame >= progress.cur
      requires a.stream < profilesCount
      modifies this, gap, referenceFrames
      ensures Valid(a.second.nowMs) && Now() == TakenIn(old(Now()), a, profilesCount, hasCallback)
    {
      hide Ended, Flushed, GapBefore, References, SeenIn, FlushedBy, InSequence, InOrder, NewFrame;
      var isNew := IsNew(a);
      if isNew {
        NextFrame(a);
      }
      FlushIfPossible(a);
    }

    method IsOld(a: Arrival) returns (isOld: bool)
      requires FramesHold() && a.Near(progress.cur)
      ensures isOld <==> a.frame < progress.cur
    {
      if progress.cur >= 0 { IndexOrder(a.frame, progress.cur); }
      isOld := frameIndexCur >= 0 && SeqNum.Lt(MOD, Index(a.frame), frameIndexCur);
    }

    method IsNew(a: Arrival) returns (isNew: bool)
      requires FramesHold() && a.Near(progress.cur)
      ensures isNew <==> a.frame > progress.cur
    {
      if progress.cur >= 0 { IndexOrder(a.frame, progress.cur); }
      isNew := frameIndexCur < 0 || SeqNum.Gt(MOD, Index(a.frame), frameIndexCur);
    }

    method FlushIfPossible(a: Arrival)
      requires Valid(a.first.nowMs) && a.first.nowMs <= a.second.nowMs && progress.cur >= 0
      modifies this, referenceFrames
      ensures Valid(a.second.nowMs)
      ensures Now() == if a.flushPossible then Ended(old(Now()), a.second, hasCallback) else old(Now())
    {
      if frameIndexCur != frameIndexPrev {
        if a.flushPossible {
          FlushFrame(a.second);
        }
      }
    }

    /** Begins a new frame. If the one before has not been flushed yet, that is done now, whatever has arrived of it. */
    method NextFrame(a: Arrival)
      requires Valid(a.nowMs) && a.nowMs <= a.first.nowMs && a.frame > progress.cur && a.Near(progress.cur)
      modifies this, gap, referenceFrames
      ensures Valid(a.first.nowMs) && profileCur == old(profileCur) && Now() == NewFrame(old(Now()), a, hasCallback)
    {
      hide Ended, GapBefore, Detected, DeadlineAfter, HeldAfter, SentAfter, InOrder, InSequence, SeenIn, References,
           Spaced;
      EndPrevious(a.first, a.nowMs);
      DetectGap(Index(a.frame), a.nowMs);
      if progress.cur >= 0 { IndexOrder(a.frame, progress.cur); }
      BeginFrame(a.frame);
    }

    method EndPrevious(f: Flushing, ghost nowMs: nat)
      requires Valid(nowMs) && nowMs <= f.nowMs
      modifies this`frameIndexPrev, this`frameIndexPrevComplete, this`framesLost, this`lastReported,
               this`idrRequestPending,
               this`idrRequestStartMs, this`lastIdrRequestMs, this`consecutiveMissingRef, this`progress, this`ledger,
               this`requests, referenceFrames
      ensures Valid(f.nowMs) && Now() == Ended(old(Now()), f, hasCallback)
    {
      if frameIndexCur >= 0 && frameIndexPrev != frameIndexCur {
        FlushFrame(f);
      }
    }

    method BeginFrame(frame: nat)
      requires FramesHold() && frame > progress.cur
      requires progress.cur >= 0 ==> progress.flushed && Index(progress.cur) != Index(frame)
      modifies this`progress, this`frameIndexCur
      ensures FramesHold() && progress == Begun(old(progress), frame)
    {
      frameIndexCur := Index(frame);
      progress := Begun(progress, frame);
    }
  }
}
