/**
 * What the video receiver does, as functions of its state: which frames go to the decoder and which references are
 * held, what becomes of gaps, and when key frames are requested.
 */
module VideoSpec {
  import opened Basics
  import opened VideoGap
  import SeqNum
  import Frames = FrameProcessor

  const MOD: nat := SeqNum.MOD16
  const REFERENCES: nat := 16
  const GAP_REPORT_HOLD_MS: nat := 24
  const GAP_REPORT_FORCE_SPAN: nat := 12
  const SPAN_SANITY_MAX: nat := 4096
  const IDR_REQUEST_COOLDOWN_MS: nat := 100
  const IDR_REQUEST_TIMEOUT_MS: nat := 1000
  const CASCADE_SKIP_THRESHOLD: nat := 3
  const NO_REFERENCE: nat := 0xff
  const LOST_SPAN_SANITY: nat := 1000

  // ---------------------------------------------------------------- frames submitted to the decoder

  /** What happened to the decoder: a frame was submitted, referring to the frame so many before it or to none, and was
      accepted or not; or the references were reset. */
  datatype Entry = Submitted(frame: nat, reference: Option<nat>, ok: bool) | Reset

  /** The frames accepted since the last reset, oldest first. */
  function Accepted(log: seq<Entry>): seq<nat> {
    if log == [] then []
    else match log[|log| - 1]
      case Submitted(frame, _, ok) => Accepted(log[..|log| - 1]) + if ok then [frame] else []
      case Reset => []
  }

  function Latest(frames: seq<nat>): (r: seq<nat>)
    ensures |r| <= REFERENCES
  {
    if |frames| <= REFERENCES then frames else frames[|frames| - REFERENCES..]
  }

  /** The 16 bit index of a frame: its number modulo 2^16 (IndexIs). */
  function Index(frame: nat): u16
  {
    if frame < 0x1_0000 then frame else Index(frame - 0x1_0000)
  }

  lemma {:induction false} IndexIs(frame: nat)
    ensures Index(frame) == frame % 0x1_0000
  {
    if frame >= MOD {
      IndexIs(frame - MOD);
      SeqNum.ModStep(MOD, frame - MOD, 0);
      SeqNum.DivModUnique(MOD, (frame - MOD) / MOD + 1, (frame - MOD) % 0x1_0000);
    }
  }

  /** The indices of the frames a new one can refer to: the latest of those accepted. */
  function References(log: seq<Entry>): (r: seq<u16>)
    ensures |r| <= REFERENCES
  {
    Indices(Latest(Accepted(log)))
  }

  function Indices(frames: seq<nat>): (r: seq<u16>)
    ensures |r| == |frames| && forall i :: 0 <= i < |r| ==> r[i] == Index(frames[i])
  {
    seq<u16>(|frames|, i requires 0 <= i < |frames| => Index(frames[i]))
  }

  /** The index that lies `reference` and one more before an index. */
  function ReferenceIndex(index: u16, reference: nat): u16 {
    (index - reference - 1) % 0x1_0000
  }

  /** The last frame submitted, or -1. */
  function LastFrame(log: seq<Entry>): (frame: int)
    ensures frame >= -1
  {
    if log == [] then -1
    else if log[|log| - 1].Submitted? then log[|log| - 1].frame
    else LastFrame(log[..|log| - 1])
  }

  /** An entry fits the log before it: frames are submitted in increasing order, and refer only to frames that are
      held. */
  ghost predicate Follows(log: seq<Entry>, e: Entry) {
    e.Submitted? ==>
      && e.frame > LastFrame(log)
      && (e.reference.Some? ==> ReferenceIndex(Index(e.frame), e.reference.value) in References(log))
  }

  ghost predicate InSequence(log: seq<Entry>) {
    log == [] || (InSequence(log[..|log| - 1]) && Follows(log[..|log| - 1], log[|log| - 1]))
  }

  type Log = l: seq<Entry> | InSequence(l)

  /** No frame is submitted twice, nor after a later one; and each refers to none, or to one of the latest accepted. */
  lemma {:induction false} EachFollows(log: Log, i: nat)
    requires i < |log|
    ensures Follows(log[..i], log[i])
    ensures log[i].Submitted? ==> log[i].frame <= LastFrame(log)
    ensures forall j :: 0 <= j < i && log[i].Submitted? && log[j].Submitted? ==> log[j].frame < log[i].frame
  {
    var n := |log| - 1;
    if i < n {
      EachFollows(log[..n], i);
      assert log[..n][..i] == log[..i];
    } else {
      forall j | 0 <= j < n && log[j].Submitted? ensures log[j].frame <= LastFrame(log[..n]) {
        EachFollows(log[..n], j);
      }
    }
  }

  /** The frames kept as references have been submitted before. */
  lemma {:induction false} AcceptedBefore(log: Log)
    ensures forall f :: f in Accepted(log) ==> f <= LastFrame(log)
  {
    if log != [] {
      AcceptedBefore(log[..|log| - 1]);
      assert Follows(log[..|log| - 1], log[|log| - 1]);
    }
  }

  /** What a submitted frame refers to, by numbers that do not wrap: as long as no reference kept is 2^16 frames
      old, the frame so many before it is one of those kept. */
  lemma TrueReference(log: Log, i: nat)
    requires i < |log| && log[i].Submitted? && log[i].reference.Some? && log[i].reference.value < MOD - 1
    requires forall f :: f in Latest(Accepted(log[..i])) ==> log[i].frame - f < MOD
    ensures log[i].frame - log[i].reference.value - 1 in Latest(Accepted(log[..i]))
  {
    hide Index, Accepted, InSequence, LastFrame, ReferenceIndex;
    EachFollows(log, i);
    PrefixInSequence(log, i);
    AcceptedBefore(log[..i]);
    var kept, frame, back := Latest(Accepted(log[..i])), log[i].frame, log[i].reference.value + 1;
    var j :| 0 <= j < |kept| && Index(kept[j]) == ReferenceIndex(Index(frame), back - 1);
    assert kept[j] in kept && kept[j] in Accepted(log[..i]);
    SameFrame(kept[j], frame, back);
  }

  /** An index refers to one frame only of those less than 2^16 back. */
  lemma SameFrame(kept: nat, frame: nat, back: nat)
    requires kept < frame < kept + 0x1_0000 && 1 <= back < 0x1_0000
    requires Index(kept) == ReferenceIndex(Index(frame), back - 1)
    ensures kept == frame - back
  {
    hide Index;
    IndexIs(frame);
    IndexIs(kept);
    IndexBack(frame, back);
    SeqNum.ModDistinct(0x1_0000, kept, frame - back);
  }

  lemma {:induction false} PrefixInSequence(log: Log, i: nat)
    requires i <= |log|
    ensures InSequence(log[..i])
  {
    if i < |log| {
      PrefixInSequence(log[..|log| - 1], i);
      assert log[..|log| - 1][..i] == log[..i];
    } else {
      assert log[..i] == log;
    }
  }

  lemma IndexBack(frame: nat, back: nat)
    requires back >= 1
    ensures ReferenceIndex(frame % 0x1_0000, back - 1) == (frame - back) % 0x1_0000
  {
    SeqNum.AddResidue(0x1_0000, frame, 0 - back);
  }

  /** The log after one more entry. */
  ghost function Extended(log: Log, e: Entry): (r: Log)
    requires Follows(log, e)
    ensures r == log + [e]
  {
    assert (log + [e])[..|log|] == log;
    log + [e]
  }

  /** How far the receiver has come: the current frame by its number, or -1, whether it has been flushed, and the
      log. */
  datatype RawProgress = Progress(log: Log, cur: int, flushed: bool)

  ghost predicate Orderly(p: RawProgress) {
    LastFrame(p.log) <= p.cur && (p.flushed || p.cur == -1 || LastFrame(p.log) < p.cur)
  }

  type Progress = p: RawProgress | Orderly(p) ghost witness Progress([], -1, false)

  /** The current frame has been dropped. */
  ghost function Dropped(p: Progress): (r: Progress)
    ensures r == Progress(p.log, p.cur, true)
  {
    Progress(p.log, p.cur, true)
  }

  /** The current frame has been submitted, or dropped with a reset. */
  ghost function Entered(p: Progress, e: Entry): (r: Progress)
    requires !p.flushed
    requires e.Submitted? ==> e.frame == p.cur
    requires e.Submitted? && e.reference.Some? ==>
               ReferenceIndex(Index(e.frame), e.reference.value) in References(p.log)
    ensures r.log == p.log + [e] && r.cur == p.cur && r.flushed
  {
    Progress(Extended(p.log, e), p.cur, true)
  }

  /** The next frame begins. */
  ghost function Begun(p: Progress, frame: nat): (r: Progress)
    requires frame > p.cur
    ensures r == Progress(p.log, frame, false)
  {
    Progress(p.log, frame, false)
  }

  lemma ReferencesAdd(log: seq<Entry>, e: Entry)
    requires e.Submitted?
    ensures var refs := References(log);
            References(log + [e]) == if !e.ok then refs
                                     else (if |refs| == REFERENCES then refs[1..] else refs) + [Index(e.frame)]
  {
    assert (log + [e])[..|log|] == log;
    if e.ok { LatestAdd(Accepted(log), e.frame); }
  }

  lemma LatestAdd(frames: seq<nat>, frame: nat)
    ensures var refs := Indices(Latest(frames));
            Indices(Latest(frames + [frame])) == (if |refs| == REFERENCES then refs[1..] else refs) + [Index(frame)]
  {
    if |frames| >= REFERENCES {
      assert Latest(frames + [frame]) == Latest(frames)[1..] + [frame];
    }
  }

  // ---------------------------------------------------------------- one frame

  datatype Slice = I | P(reference: nat) | Other

  /** What happens around one flush: what the frame processor and the parser make of the frame, whether the
      reference in it can be changed, whether the decoder accepts it, and when and whether a key frame request
      would be sent. */
  datatype Flushing = Flushing(result: Frames.FlushResult, slice: Option<Slice>, canChange: bool, ok: bool,
                               nowMs: nat, idrSent: bool)

  /** The nearest reference from `i` back that is held. */
  function Nearest(refs: seq<u16>, index: u16, i: nat): (r: Option<nat>)
    ensures r.Some? ==> i <= r.value < REFERENCES && ReferenceIndex(index, r.value) in refs
    ensures forall j :: i <= j < (if r.Some? then r.value else REFERENCES) ==> ReferenceIndex(index, j) !in refs
    decreases REFERENCES - i
  {
    if i >= REFERENCES then None
    else if ReferenceIndex(index, i) in refs then Some(i)
    else Nearest(refs, index, i + 1)
  }

  /** The next reference back; the count is a 32 bit number. */
  function NextBack(reference: nat): nat {
    (reference + 1) % SeqNum.MOD32
  }

  /** The slice refers to a frame that is not held. */
  predicate Lacks(refs: seq<u16>, index: u16, slice: Option<Slice>) {
    && slice.Some? && slice.value.P? && slice.value.reference != NO_REFERENCE
    && ReferenceIndex(index, slice.value.reference) !in refs
  }

  /** Another frame that is held is referred to instead. */
  predicate Recovers(refs: seq<u16>, index: u16, f: Flushing) {
    Lacks(refs, index, f.slice) && Nearest(refs, index, NextBack(f.slice.value.reference)).Some? && f.canChange
  }

  predicate Decodable(refs: seq<u16>, index: u16, f: Flushing) {
    !Lacks(refs, index, f.slice) || Recovers(refs, index, f)
  }

  predicate Whole(f: Flushing) {
    f.result == Frames.Success || f.result == Frames.FecSuccess
  }

  /** What a decodable frame refers to when it is submitted. */
  function ReferenceOf(refs: seq<u16>, index: u16, f: Flushing): (r: Option<nat>)
    requires Decodable(refs, index, f)
    ensures r.Some? ==> ReferenceIndex(index, r.value) in refs
  {
    if f.slice.None? || !f.slice.value.P? || f.slice.value.reference == NO_REFERENCE then None
    else if Lacks(refs, index, f.slice) then Nearest(refs, index, NextBack(f.slice.value.reference))
    else Some(f.slice.value.reference)
  }

  ghost function SubmissionOf(p: Progress, f: Flushing): (e: Entry)
    requires p.cur >= 0 && Decodable(References(p.log), Index(p.cur), f)
    ensures e.Submitted? && e.frame == p.cur && e.ok == f.ok
    ensures e.reference.Some? ==> ReferenceIndex(Index(p.cur), e.reference.value) in References(p.log)
  {
    Submitted(p.cur, ReferenceOf(References(p.log), Index(p.cur), f), f.ok)
  }

  /** What a whole frame does to the decoder. */
  ghost function DecodedBy(p: Progress, f: Flushing, hasCallback: bool): (r: Progress)
    requires p.cur >= 0 && !p.flushed
    ensures r.cur == p.cur && r.flushed
  {
    if Decodable(References(p.log), Index(p.cur), f) && hasCallback then Entered(p, SubmissionOf(p, f)) else Dropped(p)
  }

  /** What a flush does to the decoder. */
  ghost function FlushedBy(p: Progress, missing: nat, f: Flushing, hasCallback: bool): (r: Progress)
    requires p.cur >= 0 && !p.flushed
    ensures r.cur == p.cur && r.flushed
  {
    if missing >= CASCADE_SKIP_THRESHOLD then Entered(p, Reset)
    else if Whole(f) then DecodedBy(p, f, hasCallback)
    else Dropped(p)
  }

  /** The last complete frame after a flush. */
  ghost function CompleteAfter(refs: seq<u16>, missing: nat, before: u16, index: u16, f: Flushing,
                               hasCallback: bool): nat {
    if missing < CASCADE_SKIP_THRESHOLD && Whole(f) && Decodable(refs, index, f) && (hasCallback ==> f.ok)
    then index else before
  }

  /** The frames in a row that lacked their reference, once a whole frame has been looked at. */
  ghost function Counted(refs: seq<u16>, missing: nat, index: u16, f: Flushing, hasCallback: bool): (r: nat)
    ensures r <= missing + 1
  {
    if Recovers(refs, index, f) || (Decodable(refs, index, f) && ((hasCallback && f.ok) || f.slice == Some(I))) then 0
    else if Decodable(refs, index, f) then missing
    else missing + 1
  }

  ghost function MissingAfter(refs: seq<u16>, missing: nat, index: u16, f: Flushing, hasCallback: bool): nat {
    if missing >= CASCADE_SKIP_THRESHOLD then 0
    else if !Whole(f) then missing
    else Counted(refs, missing, index, f, hasCallback)
  }

  /** An addition of 32 bit numbers that stops at the greatest. */
  function SaturatingAdd(a: nat, b: nat): nat {
    Min(a + b, SeqNum.MOD32 - 1)
  }

  /** The frames lost to be told to the decoder, when recovery has failed for all since the last complete one. */
  ghost function LostWith(prevComplete: u16, index: u16, lost: nat): nat {
    var span := Extent(Range(Next(prevComplete), index)) + 1;
    if span < LOST_SPAN_SANITY then SaturatingAdd(lost, span) else lost
  }

  ghost function LostOnDecode(refs: seq<u16>, index: u16, lost: nat, f: Flushing, hasCallback: bool): nat {
    if !Decodable(refs, index, f) then SaturatingAdd(lost, 1) else if hasCallback then 0 else lost
  }

  ghost function LostAfter(refs: seq<u16>, missing: nat, prevComplete: u16, index: u16, lost: nat, f: Flushing,
                           hasCallback: bool): nat {
    if missing >= CASCADE_SKIP_THRESHOLD then SaturatingAdd(lost, 1)
    else if f.result == Frames.FecFailed then LostWith(prevComplete, index, lost)
    else if f.result == Frames.Failed then lost
    else LostOnDecode(refs, index, lost, f, hasCallback)
  }

  // ---------------------------------------------------------------- reports of missing frames

  datatype Fate = Sent | Skipped | Suppressed

  /** A range that was due to be reported, whether it is a gap held back or came of a failed frame, what became of
      it, and the range that had last been sent before it. */
  datatype Report = Report(range: Range, isGap: bool, fate: Fate, last: Range)

  /** To begin with the range 0 to 0 is taken to have been sent. */
  const NEVER_SENT: Range := Range(0, 0)

  /** The range counts as reported already. */
  predicate Repeats(last: Range, r: Range) {
    last.start == r.start && SeqNum.Ge(MOD, last.end, r.end)
  }

  /** The fate of a range fits what was last sent before it. */
  predicate Fits(r: Report) {
    && (r.fate == Sent ==> !Repeats(r.last, r.range))
    && (r.fate == Skipped ==> Repeats(r.last, r.range))
    && (r.fate == Suppressed ==> r.isGap && Extent(r.range) + 1 > SPAN_SANITY_MAX)
  }

  /** A gap is seen, or a range becomes due to be reported. */
  datatype Step = Seen(gap: Range) | Due(report: Report)

  /** The gap held after some steps. */
  function HeldAfter(steps: seq<Step>): Option<Range> {
    if steps == [] then None
    else
      var held := HeldAfter(steps[..|steps| - 1]);
      match steps[|steps| - 1]
      case Seen(gap) => Some(Joined(held, gap))
      case Due(report) => if report.isGap then None else held
  }

  /** The range last sent after some steps. */
  function SentAfter(steps: seq<Step>): Range {
    if steps == [] then NEVER_SENT
    else match steps[|steps| - 1]
      case Seen(_) => SentAfter(steps[..|steps| - 1])
      case Due(report) => if report.fate == Sent then report.range else report.last
  }

  /** A step fits those before it: only what is held is taken out to be reported, and nothing that is held is
      overwritten. */
  predicate Possible(steps: seq<Step>, step: Step) {
    match step
    case Seen(gap) => Short(gap) && (HeldAfter(steps).Some? ==> HeldAfter(steps).value.start == gap.start)
    case Due(report) =>
      Fits(report) && report.last == SentAfter(steps) && (report.isGap ==> HeldAfter(steps) == Some(report.range))
  }

  predicate InOrder(steps: seq<Step>) {
    steps == [] || (InOrder(steps[..|steps| - 1]) && Possible(steps[..|steps| - 1], steps[|steps| - 1]))
  }

  type Ledger = s: seq<Step> | InOrder(s)

  ghost function Booked(ledger: Ledger, step: Step): (r: Ledger)
    requires Possible(ledger, step)
    ensures r == ledger + [step]
    ensures HeldAfter(r) == if step.Seen? then Some(Joined(HeldAfter(ledger), step.gap))
                            else if step.report.isGap then None else HeldAfter(ledger)
    ensures SeenIn(r) == SeenIn(ledger) + if step.Seen? then [step.gap] else []
    ensures SentAfter(r) == if step.Due? && step.report.fate == Sent then step.report.range else SentAfter(ledger)
  {
    assert (ledger + [step])[..|ledger|] == ledger;
    ledger + [step]
  }

  /** The gaps seen. */
  function SeenIn(steps: seq<Step>): seq<Range> {
    if steps == [] then []
    else
      var step := steps[|steps| - 1];
      SeenIn(steps[..|steps| - 1]) + if step.Seen? then [step.gap] else []
  }

  /** The gaps that were due to be reported. */
  function DueIn(steps: seq<Step>): seq<Range> {
    if steps == [] then []
    else
      var step := steps[|steps| - 1];
      DueIn(steps[..|steps| - 1]) + if step.Due? && step.report.isGap then [step.report.range] else []
  }

  ghost function HeldNumbers(held: Option<Range>): set<u16> {
    if held.Some? then Numbers(held.value) else {}
  }

  /** A gap becomes due to be reported at this step. */
  predicate GapDue(steps: seq<Step>, q: nat)
    requires q < |steps|
  {
    steps[q].Due? && steps[q].report.isGap
  }

  ghost predicate NoneDue(steps: seq<Step>, from: nat, to: nat)
    requires to <= |steps|
  {
    forall q :: from <= q < to ==> !GapDue(steps, q)
  }

  /** The gap seen at a step is covered by the next one that becomes due; if none does, by the one still held. */
  ghost predicate Settled(steps: seq<Step>, p: nat)
    requires p < |steps| && steps[p].Seen?
  {
    || (NoneDue(steps, p + 1, |steps|) && HeldAfter(steps).Some? && Covers(HeldAfter(steps).value, steps[p].gap))
    || exists q :: p < q < |steps| && GapDue(steps, q) && NoneDue(steps, p + 1, q)
                   && Covers(steps[q].report.range, steps[p].gap)
  }

  /** The range has been seen as a gap, and no gap has become due between then and step `q`. */
  ghost predicate SeenBefore(steps: seq<Step>, range: Range, q: nat)
    requires q <= |steps|
  {
    exists p :: 0 <= p < q && steps[p] == Step.Seen(range) && NoneDue(steps, p + 1, q)
  }

  /** Each gap seen is settled by what comes after it, and each gap due, and the one held, is one of the gaps seen since
      the one due before it: none is lost, none invented. */
  ghost predicate GapsKept(steps: seq<Step>) {
    && (forall p :: 0 <= p < |steps| && steps[p].Seen? ==> Settled(steps, p))
    && (forall q :: 0 <= q < |steps| && GapDue(steps, q) ==> SeenBefore(steps, steps[q].report.range, q))
    && (HeldAfter(steps).Some? ==> SeenBefore(steps, HeldAfter(steps).value, |steps|))
  }

  lemma NoneDueMore(steps: seq<Step>, step: Step, from: nat, to: nat)
    requires to <= |steps|
    ensures NoneDue(steps + [step], from, to) <==> NoneDue(steps, from, to)
    ensures from <= |steps| ==>
              (NoneDue(steps + [step], from, |steps| + 1)
               <==> NoneDue(steps, from, |steps|) && !(step.Due? && step.report.isGap))
  {
    var all := steps + [step];
    assert forall q :: 0 <= q < |steps| ==> GapDue(all, q) == GapDue(steps, q);
    assert GapDue(all, |steps|) <==> step.Due? && step.report.isGap;
  }

  lemma SeenBeforeMore(steps: seq<Step>, step: Step, range: Range, q: nat)
    requires q <= |steps| && SeenBefore(steps, range, q)
    ensures SeenBefore(steps + [step], range, q)
    ensures q == |steps| && !(step.Due? && step.report.isGap) ==> SeenBefore(steps + [step], range, q + 1)
  {
    hide NoneDue;
    var p :| 0 <= p < q && steps[p] == Step.Seen(range) && NoneDue(steps, p + 1, q);
    assert (steps + [step])[p] == steps[p];
    NoneDueMore(steps, step, p + 1, q);
  }

  lemma SettledMore(steps: Ledger, step: Step, p: nat)
    requires Possible(steps, step) && p < |steps| && steps[p].Seen? && Settled(steps, p)
    ensures Settled(steps + [step], p)
  {
    hide NoneDue, Numbers, Joined;
    var all := steps + [step];
    assert all[..|steps|] == steps && all[p] == steps[p];
    if q :| p < q < |steps| && GapDue(steps, q) && NoneDue(steps, p + 1, q)
            && Covers(steps[q].report.range, steps[p].gap)
    {
      NoneDueMore(steps, step, p + 1, q);
      assert all[q] == steps[q] && GapDue(all, q);
    } else {
      NoneDueMore(steps, step, p + 1, |steps|);
      if step.Seen? {
        JoinedCovers(HeldAfter(steps), step.gap);
      } else if step.report.isGap {
        assert GapDue(all, |steps|);
      }
    }
  }

  lemma GapsKeptMore(steps: Ledger, step: Step)
    requires Possible(steps, step) && GapsKept(steps)
    ensures GapsKept(steps + [step])
  {
    hide NoneDue, Numbers, Joined, Settled, SeenBefore;
    var all, n := steps + [step], |steps|;
    assert all[..n] == steps;
    if step.Seen? { LastSeen(steps, step); }
    forall p | 0 <= p < |all| && all[p].Seen? ensures Settled(all, p) {
      if p < n { SettledMore(steps, step, p); }
    }
    forall q | 0 <= q < |all| && GapDue(all, q) ensures SeenBefore(all, all[q].report.range, q) {
      if q < n { assert GapDue(steps, q); }
      SeenBeforeMore(steps, step, all[q].report.range, q);
    }
    if HeldAfter(all).Some? && HeldAfter(all) == HeldAfter(steps) {
      SeenBeforeMore(steps, step, HeldAfter(all).value, n);
    }
  }

  lemma LastSeen(steps: Ledger, step: Step)
    requires Possible(steps, step) && step.Seen?
    ensures Settled(steps + [step], |steps|) && SeenBefore(steps + [step], step.gap, |steps| + 1)
    ensures HeldAfter(steps + [step]) == Some(step.gap) || HeldAfter(steps + [step]) == HeldAfter(steps)
  {
    hide Numbers, Joined;
    var all := steps + [step];
    assert all[..|steps|] == steps && all[|steps|] == step;
    JoinedCovers(HeldAfter(steps), step.gap);
  }

  lemma LastPossible(ledger: Ledger)
    requires ledger != []
    ensures Possible(ledger[..|ledger| - 1], ledger[|ledger| - 1])
  {
  }

  /** In every ledger no gap is lost and none invented. */
  lemma {:induction false} AllKept(ledger: Ledger)
    ensures GapsKept(ledger)
  {
    if ledger == [] {
      assert GapsKept([]);
    } else {
      hide GapsKept, Possible;
      var before, step := ledger[..|ledger| - 1], ledger[|ledger| - 1];
      AllKept(before);
      LastPossible(ledger);
      GapsKeptMore(before, step);
      assert before + [step] == ledger;
    }
  }

  /** So the frame numbers found missing are those that became due to be reported and those still held. */
  lemma {:induction false} AllAccounted(ledger: Ledger)
    ensures HeldAfter(ledger).Some? ==> Short(HeldAfter(ledger).value)
    ensures AllNumbers(DueIn(ledger)) + HeldNumbers(HeldAfter(ledger)) == AllNumbers(SeenIn(ledger))
  {
    if ledger != [] {
      var before, step := ledger[..|ledger| - 1], ledger[|ledger| - 1];
      AllAccounted(before);
      match step
      case Seen(gap) => SeenAccounted(before, ledger, gap);
      case Due(report) => DueAccounted(before, ledger, report);
    }
  }

  lemma SeenAccounted(before: Ledger, ledger: Ledger, gap: Range)
    requires ledger != [] && ledger[|ledger| - 1] == Step.Seen(gap) && ledger[..|ledger| - 1] == before
    requires HeldAfter(before).Some? ==> Short(HeldAfter(before).value)
    requires AllNumbers(DueIn(before)) + HeldNumbers(HeldAfter(before)) == AllNumbers(SeenIn(before))
    ensures Short(HeldAfter(ledger).value)
    ensures AllNumbers(DueIn(ledger)) + HeldNumbers(HeldAfter(ledger)) == AllNumbers(SeenIn(ledger))
  {
    hide AllNumbers, Numbers;
    AllNumbersAdd(SeenIn(before), [gap]);
    OneRange(gap);
    assert DueIn(ledger) == DueIn(before);
    if HeldAfter(before).Some? { JoinedNumbers(HeldAfter(before).value, gap); }
  }

  lemma DueAccounted(before: Ledger, ledger: Ledger, report: Report)
    requires ledger != [] && ledger[|ledger| - 1] == Due(report) && ledger[..|ledger| - 1] == before
    requires HeldAfter(before).Some? ==> Short(HeldAfter(before).value)
    requires AllNumbers(DueIn(before)) + HeldNumbers(HeldAfter(before)) == AllNumbers(SeenIn(before))
    ensures HeldAfter(ledger).Some? ==> Short(HeldAfter(ledger).value)
    ensures AllNumbers(DueIn(ledger)) + HeldNumbers(HeldAfter(ledger)) == AllNumbers(SeenIn(ledger))
  {
    hide AllNumbers, Numbers;
    assert SeenIn(ledger) == SeenIn(before);
    assert !report.isGap ==> DueIn(ledger) == DueIn(before);
    if report.isGap {
      AllNumbersAdd(DueIn(before), [report.range]);
      OneRange(report.range);
    }
  }

  lemma OneRange(r: Range)
    ensures AllNumbers([r]) == Numbers(r)
  {
    assert [r][..0] == [];
  }

  ghost predicate EverSent(steps: seq<Step>, r: Range) {
    exists i :: 0 <= i < |steps| && steps[i].Due? && steps[i].report.fate == Sent && steps[i].report.range == r
  }

  lemma SentEarlier(steps: seq<Step>, step: Step, r: Range)
    ensures EverSent(steps + [step], r) <==>
              EverSent(steps, r) || (step.Due? && step.report.fate == Sent && step.report.range == r)
  {
    if EverSent(steps, r) {
      var i :| 0 <= i < |steps| && steps[i].Due? && steps[i].report.fate == Sent && steps[i].report.range == r;
      assert (steps + [step])[i] == steps[i];
    }
    assert (steps + [step])[|steps|] == step;
  }

  lemma {:induction false} SentAfterIs(ledger: Ledger, r: Range)
    ensures EverSent(ledger, SentAfter(ledger)) || SentAfter(ledger) == NEVER_SENT
    ensures EverSent(ledger, r) ==> EverSent(ledger, SentAfter(ledger))
  {
    if ledger != [] {
      var before, step := ledger[..|ledger| - 1], ledger[|ledger| - 1];
      assert ledger == before + [step];
      SentAfterIs(before, r);
      SentEarlier(before, step, r);
      SentEarlier(before, step, SentAfter(ledger));
    }
  }

  lemma {:induction false} EachPossible(ledger: Ledger, i: nat)
    requires i < |ledger|
    ensures InOrder(ledger[..i]) && Possible(ledger[..i], ledger[i])
  {
    var n := |ledger| - 1;
    if i < n {
      EachPossible(ledger[..n], i);
      assert ledger[..n][..i] == ledger[..i];
    }
  }

  /** A gap taken for reported lies within the range that is taken to cover it, however long that is. */
  lemma RepeatsCovers(last: Range, r: Range)
    requires Short(r) && Repeats(last, r)
    ensures Numbers(r) <= Numbers(last)
  {
    assert Extent(r) <= Extent(last);
  }

  /**
   * A gap due to be reported is sent, or longer than any gap that is taken seriously, or lies within a range sent
   * before. The one exception is frame 0 alone as long as nothing has been sent: it is taken for reported already.
   */
  lemma FateOfGap(ledger: Ledger, i: nat)
    requires i < |ledger| && ledger[i].Due? && ledger[i].report.isGap
    ensures var r := ledger[i].report;
            || r.fate == Sent
            || (r.fate == Suppressed && Extent(r.range) + 1 > 4096)
            || (EverSent(ledger[..i], r.last) && Numbers(r.range) <= Numbers(r.last))
            || (r.range == NEVER_SENT && forall s :: !EverSent(ledger[..i], s))
  {
    var r := ledger[i].report;
    EachPossible(ledger, i);
    AllAccounted(ledger[..i]);
    if r.fate == Skipped {
      RepeatsCovers(r.last, r.range);
      FirstReportSkipped(r.range);
      forall s ensures !EverSent(ledger[..i], s) || EverSent(ledger[..i], r.last) {
        SentAfterIs(ledger[..i], s);
      }
      SentAfterIs(ledger[..i], r.last);
    }
  }

  /** When one range of true frame numbers counts as reported because another was the last one sent: not only if it
      lies within that, but also a multiple of 2^16 frames later. */
  lemma RepeatsIff(first: nat, last: nat, first': nat, last': nat)
    requires first <= last < first + 0x1_0000 && first' <= last' < first' + MOD / 2
    ensures Repeats(Range(Index(first), Index(last)), Range(Index(first'), Index(last')))
       <==> (first' - first) % 0x1_0000 == 0 && 0 <= (last - first) - (last' - first') < MOD / 2
  {
    hide Index, Repeats;
    DistanceBetween(first, last);
    DistanceBetween(first', last');
    RepeatsByExtent(Range(Index(first), Index(last)), Range(Index(first'), Index(last')));
    IndexIs(first);
    IndexIs(first');
    SameResidue(first, first');
  }

  lemma RepeatsByExtent(last: Range, r: Range)
    requires Short(r)
    ensures Repeats(last, r) <==> last.start == r.start && 0 <= Extent(last) - Extent(r) < MOD / 2
  {
  }

  lemma SameResidue(x: int, y: int)
    ensures x % 0x1_0000 == y % 0x1_0000 <==> (y - x) % 0x1_0000 == 0
  {
    var q := y / 0x1_0000 - x / 0x1_0000;
    assert y - x == 0x1_0000 * q + (y % 0x1_0000 - x % 0x1_0000);
    if x % 0x1_0000 == y % 0x1_0000 { SeqNum.DivModUnique(0x1_0000, q, 0); }
  }

  /** Frames 5 to 7 are reported; 2^16 frames later three frames are missing again, are taken for reported, and never
      are. */
  lemma SkippedAfterWrap()
    ensures var gap := Range(Index(65541), Index(65543));
            InOrder([Step.Seen(Range(5, 7)), Due(ReportOf(Range(5, 7), NEVER_SENT)),
                     Step.Seen(gap), Due(ReportOf(gap, Range(5, 7)))])
    ensures ReportOf(Range(5, 7), NEVER_SENT).fate == Sent
    ensures ReportOf(Range(Index(65541), Index(65543)), Range(5, 7)).fate == Skipped
  {
    var gap := Range(Index(65541), Index(65543));
    assert gap == Range(5, 7);
    var ledger: Ledger := Booked([], Step.Seen(Range(5, 7)));
    ledger := Booked(ledger, Due(ReportOf(Range(5, 7), NEVER_SENT)));
    ledger := Booked(ledger, Step.Seen(gap));
    ledger := Booked(ledger, Due(ReportOf(gap, Range(5, 7))));
    assert ledger == [Step.Seen(Range(5, 7)), Due(ReportOf(Range(5, 7), NEVER_SENT)),
                      Step.Seen(gap), Due(ReportOf(gap, Range(5, 7)))];
  }

  /** And the exception is real: with nothing sent yet, of all ranges just this one is skipped. */
  lemma FirstReportSkipped(r: Range)
    requires Short(r)
    ensures Repeats(NEVER_SENT, r) <==> r == Range(0, 0)
  {
  }

  // ---------------------------------------------------------------- requests of key frames

  /** Requests are never closer than the cooldown time. */
  ghost predicate Spaced(times: seq<nat>) {
    |times| < 2 || (var n := |times| - 1; Spaced(times[..n]) && times[n] - times[n - 1] >= IDR_REQUEST_COOLDOWN_MS)
  }

  type Requests = t: seq<nat> | Spaced(t) witness []

  ghost function Requested(times: Requests, nowMs: nat): (times': Requests)
    requires nowMs - LastOf(times) >= IDR_REQUEST_COOLDOWN_MS
    ensures times' == times + [nowMs]
  {
    assert (times + [nowMs])[..|times|] == times;
    times + [nowMs]
  }

  lemma {:induction false} EachSpaced(times: Requests, i: nat, j: nat)
    requires i < j < |times|
    ensures times[j] - times[i] >= IDR_REQUEST_COOLDOWN_MS
  {
    var n := |times| - 1;
    if j < n {
      EachSpaced(times[..n], i, j);
    } else if i < n - 1 {
      EachSpaced(times[..n], i, n - 1);
    }
  }

  ghost function LastOf(times: seq<nat>): nat {
    if times == [] then 0 else times[|times| - 1]
  }

  /** Key frame requests: whether one is pending, since when, and when all of them were made. */
  datatype Idr = Idr(pending: bool, startMs: nat, times: Requests)

  /** A request would be made now: none is pending, or not any more, and the last was long enough ago. */
  ghost predicate WouldAsk(i: Idr, nowMs: nat) {
    && (!i.pending || nowMs - i.startMs > IDR_REQUEST_TIMEOUT_MS)
    && nowMs - LastOf(i.times) >= IDR_REQUEST_COOLDOWN_MS
  }

  ghost function Asked(i: Idr, nowMs: nat, sent: bool): Idr {
    if WouldAsk(i, nowMs) && sent then Idr(true, nowMs, Requested(i.times, nowMs))
    else if i.pending && nowMs - i.startMs > IDR_REQUEST_TIMEOUT_MS then Idr(false, 0, i.times)
    else i
  }

  /** A whole frame ends the wait if it is a key frame; any other makes the request due again. */
  ghost function IdrSeen(i: Idr, f: Flushing): Idr {
    if !i.pending || f.slice.None? then i
    else if f.slice.value.I? then Idr(false, 0, i.times)
    else Asked(i, f.nowMs, f.idrSent)
  }

  ghost function IdrAfter(i: Idr, missing: nat, f: Flushing): Idr {
    if missing >= CASCADE_SKIP_THRESHOLD || f.result == Frames.FecFailed then Asked(i, f.nowMs, f.idrSent)
    else if f.result == Frames.Failed then i
    else IdrSeen(i, f)
  }

  // ---------------------------------------------------------------- what becomes of gaps

  /** The gap a frame reveals that is not the next one expected; a stream may start with frame 1. */
  function GapBefore(frameIndex: u16, complete: u16, cur: int): (gap: seq<Range>)
    ensures |gap| <= 1 && forall i :: 0 <= i < |gap| ==> Short(gap[i])
  {
    if SeqNum.Gt(MOD, frameIndex, Next(complete)) && !(frameIndex == 1 && cur < 0)
    then (GapIsShort(Next(complete), frameIndex); [Range(Next(complete), Previous(frameIndex))]) else []
  }

  /** The indices of the frames from one to another. */
  ghost function IndicesOf(first: nat, last: nat): set<u16> {
    set f: nat | first <= f <= last :: Index(f)
  }

  /** By numbers that do not wrap: with the last complete frame less than 2^15 back, the gap found is just the frames in
      between, if there are any. */
  lemma GapIsBetween(frame: nat, complete: nat, cur: int)
    requires complete < frame <= complete + MOD / 2 && !(Index(frame) == 1 && cur < 0)
    ensures GapBefore(Index(frame), Index(complete), cur)
         == if frame == complete + 1 then [] else [Range(Index(complete + 1), Index(frame - 1))]
    ensures frame > complete + 1 ==>
              Numbers(Range(Index(complete + 1), Index(frame - 1))) == IndicesOf(complete + 1, frame - 1)
  {
    NextIndex(complete);
    NextIndex(frame - 1);
    IndexOrder(frame, complete + 1);
    if frame > complete + 1 { BetweenNumbers(complete + 1, frame - 1); }
  }

  lemma NextIndex(frame: nat)
    ensures Index(frame + 1) == Next(Index(frame)) && Index(frame) == Previous(Index(frame + 1))
  {
    IndexIs(frame);
    IndexIs(frame + 1);
    SeqNum.ModStep(0x1_0000, frame, 1);
  }

  lemma DistanceBetween(from: nat, to: nat)
    requires from <= to < from + 0x1_0000
    ensures Distance(Index(from), Index(to)) == to - from
  {
    IndexIs(from);
    IndexIs(to);
    SeqNum.ModStep(0x1_0000, from, to - from);
  }

  /** The numbers of a range are those of the frames from its first to its last. */
  lemma BetweenNumbers(first: nat, last: nat)
    requires first <= last < first + 0x1_0000
    ensures Numbers(Range(Index(first), Index(last))) == IndicesOf(first, last)
  {
    var r := Range(Index(first), Index(last));
    var indices := IndicesOf(first, last);
    DistanceBetween(first, last);
    forall x: u16 ensures x in Numbers(r) <==> x in indices {
      if x in indices {
        var f :| first <= f <= last && Index(f) == x;
        DistanceBetween(first, f);
      }
      if Within(x, r) {
        var f := first + Distance(Index(first), x);
        DistanceBetween(first, f);
        SameDistance(Index(first), Index(f), x);
        assert first <= f <= last && Index(f) == x;
      }
    }
  }

  lemma SameDistance(from: u16, x: u16, y: u16)
    requires Distance(from, x) == Distance(from, y)
    ensures x == y
  {
  }

  /** Exactly when missing frames are found: not when there are 2^15 of them, or up to 2^16, nor so many more. */
  lemma GapFoundIff(frame: nat, complete: nat, cur: int)
    requires complete < frame && !(Index(frame) == 1 && cur < 0)
    ensures GapBefore(Index(frame), Index(complete), cur) != [] <==> 0 < (frame - complete - 1) % 0x1_0000 < MOD / 2
    ensures frame == 32769 && complete == 0 ==> GapBefore(Index(frame), Index(complete), cur) == []
  {
    hide Index, Distance, Next, Previous;
    NextIndex(complete);
    DistanceAhead(complete + 1, frame - complete - 1);
    LaterIff(Index(complete + 1), Index(frame));
  }

  lemma DistanceAhead(frame: nat, more: nat)
    ensures Distance(Index(frame), Index(frame + more)) == more % 0x1_0000
  {
    hide Index, Distance;
    var rest := more % 0x1_0000;
    IndexAhead(frame, more);
    DistanceBetween(frame, frame + rest);
  }

  lemma LaterIff(x: u16, y: u16)
    ensures SeqNum.Gt(MOD, y, x) <==> 0 < Distance(x, y) < MOD / 2
  {
  }

  /** The index so many frames on depends only on their number modulo 2^16. */
  lemma IndexAhead(frame: nat, more: nat)
    ensures Index(frame + more) == Index(frame + more % 0x1_0000)
  {
    IndexIs(frame + more);
    IndexIs(frame + more % 0x1_0000);
    SeqNum.AddResidue(0x1_0000, more, frame);
  }

  /** The held gap is reported once it is due or long enough, and dropped when it is absurdly long. */
  ghost function GapFlushed(l: Ledger, deadlineMs: nat, nowMs: nat, force: bool): (r: Ledger)
    ensures SeenIn(r) == SeenIn(l) && l <= r
  {
    var held := HeldAfter(l);
    if held.None? || (!force && nowMs < deadlineMs && Extent(held.value) + 1 < GAP_REPORT_FORCE_SPAN) then l
    else Booked(l, Due(ReportOf(held.value, SentAfter(l))))
  }

  /** A gap is added to the one held; if it cannot be joined with that, that one is reported. */
  ghost function GapHeld(l: Ledger, gap: Range): (r: Ledger)
    requires Short(gap)
    ensures SeenIn(r) == SeenIn(l) + [gap] && l <= r
  {
    var held := HeldAfter(l);
    var l' := if held.Some? && held.value.start != gap.start
              then Booked(l, Due(SentOrSkipped(held.value, true, SentAfter(l)))) else l;
    Booked(l', Step.Seen(gap))
  }

  /** A gap that a frame has revealed, if any, is held, and reported if it is long enough. */
  ghost function Detected(l: Ledger, deadlineMs: nat, gap: seq<Range>, nowMs: nat): (r: Ledger)
    requires |gap| <= 1 && forall i :: 0 <= i < |gap| ==> Short(gap[i])
    ensures SeenIn(r) == SeenIn(l) + gap && l <= r
  {
    if gap == [] then l
    else
      assert gap == [gap[0]];
      GapFlushed(GapHeld(l, gap[0]), DeadlineAfter(l, deadlineMs, gap, nowMs), nowMs, false)
  }

  /** A gap that is not joined with the one held falls due its hold time later. */
  ghost function DeadlineAfter(l: Ledger, deadlineMs: nat, gap: seq<Range>, nowMs: nat): nat {
    if gap == [] || (HeldAfter(l).Some? && HeldAfter(l).value.start == gap[0].start) then deadlineMs
    else nowMs + GAP_REPORT_HOLD_MS
  }

  function SentOrSkipped(range: Range, isGap: bool, last: Range): Report {
    Report(range, isGap, if Repeats(last, range) then Skipped else Sent, last)
  }

  /** What becomes of a held gap once it is taken out. */
  function ReportOf(range: Range, last: Range): Report {
    if Extent(range) + 1 > SPAN_SANITY_MAX then Report(range, true, Suppressed, last)
    else SentOrSkipped(range, true, last)
  }

  /** When recovery has failed all frames since the last complete one are reported. */
  ghost function FailureBooked(l: Ledger, missing: nat, f: Flushing, complete: u16, index: u16): (r: Ledger)
    ensures SeenIn(r) == SeenIn(l) && l <= r
  {
    if missing < CASCADE_SKIP_THRESHOLD && f.result == Frames.FecFailed
    then Booked(l, Due(SentOrSkipped(Range(Next(complete), index), false, SentAfter(l)))) else l
  }

  lemma GapIsShort(expected: u16, frameIndex: u16)
    requires SeqNum.Gt(MOD, frameIndex, expected)
    ensures Short(Range(expected, Previous(frameIndex)))
  {
  }

  function IndexOf(frame: int): int {
    if frame < 0 then -1 else Index(frame)
  }

  // ---------------------------------------------------------------- the whole state

  /**
   * How far the receiver has come; the frames in a row that lacked their reference; the index of the last complete
   * frame; the frames lost since the last submission; the key frame request; and the gaps seen and reports made, with
   * the deadline of the gap held.
   */
  datatype State = State(progress: Progress, missing: nat, complete: u16, lost: nat, idr: Idr, ledger: Ledger,
                         deadlineMs: nat)

  ghost function Flushed(s: State, f: Flushing, hasCallback: bool): (r: State)
    requires s.progress.cur >= 0 && !s.progress.flushed
    ensures r.progress.cur == s.progress.cur && r.progress.flushed && SeenIn(r.ledger) == SeenIn(s.ledger)
    ensures s.ledger <= r.ledger
  {
    var refs, index := References(s.progress.log), Index(s.progress.cur);
    State(FlushedBy(s.progress, s.missing, f, hasCallback), MissingAfter(refs, s.missing, index, f, hasCallback),
          CompleteAfter(refs, s.missing, s.complete, index, f, hasCallback),
          LostAfter(refs, s.missing, s.complete, index, s.lost, f, hasCallback), IdrAfter(s.idr, s.missing, f),
          FailureBooked(s.ledger, s.missing, f, s.complete, index), s.deadlineMs)
  }

  /** The current frame is flushed, unless it has been already. */
  ghost function Ended(s: State, f: Flushing, hasCallback: bool): (r: State)
    ensures r.progress.cur == s.progress.cur && (r.progress.cur >= 0 ==> r.progress.flushed)
    ensures SeenIn(r.ledger) == SeenIn(s.ledger) && s.ledger <= r.ledger
  {
    if s.progress.cur >= 0 && !s.progress.flushed then Flushed(s, f, hasCallback) else s
  }

  /** A packet of a frame, the frame known by its number without wrapping, when it arrives, and what happens around
      the flush it may cause of the frame before and of its own. */
  datatype Arrival = Arrival(frame: nat, stream: nat, nowMs: nat, flushPossible: bool, first: Flushing,
                             second: Flushing) {
    /** Time does not run backwards. */
    predicate After(time: nat) {
      time <= nowMs <= first.nowMs <= second.nowMs
    }

    /** The frame is within half the range of indices of the current one. */
    predicate Near(cur: int) {
      cur >= 0 ==> -(MOD / 2) < frame - cur < MOD / 2
    }
  }

  /** The packet begins a new frame. */
  predicate Begins(cur: int, a: Arrival, profilesCount: nat) {
    a.frame > cur && a.stream < profilesCount
  }

  /**
   * What a packet does: first the held gap is reported if it is due. A packet of an old frame or of an unknown stream
   * does nothing else; the first of a new frame ends the one before; and the current frame ends as soon as it can be
   * completed.
   */
  ghost function Arrived(s: State, a: Arrival, profilesCount: nat, hasCallback: bool): (r: State)
    ensures SeenIn(r.ledger) == SeenIn(s.ledger) + GapsBy(s, a, profilesCount, hasCallback)
    ensures s.ledger <= r.ledger
  {
    var g := DueReported(s, a.nowMs);
    if a.frame < s.progress.cur || a.stream >= profilesCount then g
    else TakenIn(g, a, profilesCount, hasCallback)
  }

  ghost function TakenIn(s: State, a: Arrival, profilesCount: nat, hasCallback: bool): (r: State)
    requires a.stream < profilesCount
    ensures Begins(s.progress.cur, a, profilesCount) ==>
              (SeenIn(r.ledger)
               == SeenIn(s.ledger)
                  + GapBefore(Index(a.frame), Ended(s, a.first, hasCallback).complete, IndexOf(s.progress.cur)))
    ensures !Begins(s.progress.cur, a, profilesCount) ==> SeenIn(r.ledger) == SeenIn(s.ledger)
    ensures s.ledger <= r.ledger
  {
    var s' := if Begins(s.progress.cur, a, profilesCount) then NewFrame(s, a, hasCallback) else s;
    if a.flushPossible then Ended(s', a.second, hasCallback) else s'
  }

  ghost function DueReported(s: State, nowMs: nat): (r: State)
    ensures SeenIn(r.ledger) == SeenIn(s.ledger) && s.ledger <= r.ledger
    ensures r == s.(ledger := r.ledger)
  {
    s.(ledger := GapFlushed(s.ledger, s.deadlineMs, nowMs, false))
  }

  ghost function NewFrame(s: State, a: Arrival, hasCallback: bool): (r: State)
    requires a.frame > s.progress.cur
    ensures r.progress.cur == a.frame && !r.progress.flushed && s.ledger <= r.ledger
    ensures SeenIn(r.ledger)
         == SeenIn(s.ledger)
            + GapBefore(Index(a.frame), Ended(s, a.first, hasCallback).complete, IndexOf(s.progress.cur))
  {
    var e := Ended(s, a.first, hasCallback);
    var gap := GapBefore(Index(a.frame), e.complete, IndexOf(s.progress.cur));
    State(Begun(e.progress, a.frame), e.missing, e.complete, e.lost, e.idr,
          Detected(e.ledger, e.deadlineMs, gap, a.nowMs),
          DeadlineAfter(e.ledger, e.deadlineMs, gap, a.nowMs))
  }

  /** What is added to a ledger in which one more gap is seen. */
  lemma {:induction false} SeenAmong(before: seq<Step>, after: seq<Step>, gap: Range)
    requires before <= after && SeenIn(after) == SeenIn(before) + [gap]
    ensures exists p :: |before| <= p < |after| && after[p] == Step.Seen(gap)
  {
    var n := |after| - 1;
    if after == before {
      assert false;
    } else if after[n].Seen? {
      assert SeenIn(after)[|SeenIn(after)| - 1] == after[n].gap;
      assert after[n] == Step.Seen(gap);
    } else {
      SeenAmong(before, after[..n], gap);
      var p :| |before| <= p < n && after[..n][p] == Step.Seen(gap);
      assert after[p] == Step.Seen(gap);
    }
  }

  /** The gap a packet reveals. */
  ghost function GapsBy(s: State, a: Arrival, profilesCount: nat, hasCallback: bool): seq<Range> {
    if Begins(s.progress.cur, a, profilesCount)
    then GapBefore(Index(a.frame), Ended(DueReported(s, a.nowMs), a.first, hasCallback).complete,
                   IndexOf(s.progress.cur))
    else []
  }

  /** Serial comparison of the indices of frames tells their order. */
  lemma IndexOrder(x: nat, y: nat)
    requires -(MOD / 2) < x - y < MOD / 2
    ensures SeqNum.Lt(MOD, Index(x), Index(y)) <==> x < y
    ensures SeqNum.Gt(MOD, Index(x), Index(y)) <==> x > y
    ensures Index(x) == Index(y) <==> x == y
  {
    IndexIs(x);
    IndexIs(y);
    SeqNum.SerialOrder(MOD, x, y);
  }

  // ---------------------------------------------------------------- what the receiver does, seen from outside

  /** Exactly when a request is made: none is pending, or not for a second any more, and the last one was made at least
      100 ms ago (or at time 0, if there was none). */
  lemma AskedCases(i: Idr, nowMs: nat, sent: bool)
    ensures var last := if i.times == [] then 0 else i.times[|i.times| - 1];
            var asks := (!i.pending || nowMs - i.startMs > 1000) && nowMs - last >= 100;
            && (asks && sent ==> Asked(i, nowMs, sent) == Idr(true, nowMs, i.times + [nowMs]))
            && (!(asks && sent) ==> Asked(i, nowMs, sent).times == i.times)
            && (!(asks && sent) && i.pending && nowMs - i.startMs > 1000 ==> !Asked(i, nowMs, sent).pending)
            && (!(asks && sent) && !(i.pending && nowMs - i.startMs > 1000) ==> Asked(i, nowMs, sent) == i)
  {
  }

  /** The last request is less than 100 ms old, or one has been pending for a second at most; before the first one the
      clock has not reached 100 ms. */
  predicate Fresh(i: Idr, nowMs: nat) {
    || (i.pending && nowMs - i.startMs <= 1000)
    || nowMs - (if i.times == [] then 0 else i.times[|i.times| - 1]) < 100
  }

  /** After a frame that could not be recovered, or that was skipped in a cascade, a key frame has just been asked for
      or is awaited, if requests can be sent. */
  lemma FailureAsks(s: State, f: Flushing, hasCallback: bool)
    requires s.progress.cur >= 0 && !s.progress.flushed && f.idrSent
    requires s.missing >= 3 || f.result == Frames.FecFailed
    ensures Fresh(Flushed(s, f, hasCallback).idr, f.nowMs)
  {
    AskedCases(s.idr, f.nowMs, f.idrSent);
  }

  /** A key frame ends the wait for one; another frame that is whole makes the request anew if its time has come. */
  lemma WholeFrameAsks(s: State, f: Flushing, hasCallback: bool)
    requires s.progress.cur >= 0 && !s.progress.flushed && s.missing < 3
    requires f.result == Frames.Success || f.result == Frames.FecSuccess
    ensures var i := Flushed(s, f, hasCallback).idr;
            && (f.slice == Some(I) ==> !i.pending && i.times == s.idr.times)
            && (s.idr.pending && f.slice.Some? && f.slice != Some(I) && f.idrSent ==> Fresh(i, f.nowMs))
            && (!s.idr.pending || f.slice.None? ==> i == s.idr || f.slice == Some(I))
  {
    AskedCases(s.idr, f.nowMs, f.idrSent);
  }

  /** What a flush does when no frame comes of it. */
  lemma FlushWithout(s: State, f: Flushing, hasCallback: bool)
    requires s.progress.cur >= 0 && !s.progress.flushed
    ensures var r := Flushed(s, f, hasCallback);
            && (s.missing >= 3 ==>
                  r.progress.log == s.progress.log + [Reset] && r.missing == 0 && r.complete == s.complete
                  && r.lost == (if s.lost + 1 < 0x1_0000_0000 then s.lost + 1 else 0xffff_ffff) && r.ledger == s.ledger)
            && (s.missing < 3 && f.result == Frames.Failed ==>
                  r == s.(progress := Progress(s.progress.log, s.progress.cur, true)))
            && (s.missing < 3 && f.result == Frames.FecFailed ==>
                  r.progress.log == s.progress.log && r.missing == s.missing && r.complete == s.complete)
  {
  }

  /** When recovery fails, the frames since the last complete one, by numbers that do not wrap, are booked as due to be
      reported, and counted as lost if they are fewer than 1000. */
  lemma FailureCounts(s: State, f: Flushing, hasCallback: bool, complete: nat)
    requires s.progress.cur >= 0 && !s.progress.flushed && s.missing < 3 && f.result == Frames.FecFailed
    requires s.complete == Index(complete) && complete < s.progress.cur < complete + 0x1_0000 && s.lost < 0x1_0000_0000
    ensures var r, lost := Flushed(s, f, hasCallback), s.progress.cur - complete;
            && r.lost == (if lost >= 1000 then s.lost
                          else if s.lost + lost < 0x1_0000_0000 then s.lost + lost else 0xffff_ffff)
            && |r.ledger| == |s.ledger| + 1 && r.ledger[..|s.ledger|] == s.ledger
            && r.ledger[|s.ledger|].Due? && !r.ledger[|s.ledger|].report.isGap
            && r.ledger[|s.ledger|].report.range == Range(Index(complete + 1), Index(s.progress.cur))
  {
    NextIndex(complete);
    DistanceBetween(complete + 1, s.progress.cur);
  }

  /** A whole frame that refers to no other one, or to one that is held, is submitted with that reference. */
  lemma FlushSubmits(s: State, f: Flushing)
    requires s.progress.cur >= 0 && !s.progress.flushed && s.missing < 3
    requires f.result == Frames.Success || f.result == Frames.FecSuccess
    requires f.slice.Some? && f.slice.value.P? && f.slice.value.reference != 0xff ==>
               ReferenceIndex(Index(s.progress.cur), f.slice.value.reference) in References(s.progress.log)
    ensures var r := Flushed(s, f, true);
            var reference := if f.slice.Some? && f.slice.value.P? && f.slice.value.reference != 0xff
                             then Some(f.slice.value.reference) else None;
            && r.progress.log == s.progress.log + [Submitted(s.progress.cur, reference, f.ok)]
            && r.complete == (if f.ok then Index(s.progress.cur) else s.complete)
            && r.missing == (if f.ok || f.slice == Some(I) then 0 else s.missing) && r.lost == 0 && r.ledger == s.ledger
  {
    hide Index, References, Nearest, ReferenceIndex, IdrAfter, NextBack;
  }

  /** One that refers to a frame not held is submitted with the nearest one before it that is held, if there is one and
      the reference can be changed; else it is lost. */
  lemma FlushRecovers(s: State, f: Flushing)
    requires s.progress.cur >= 0 && !s.progress.flushed && s.missing < 3
    requires f.result == Frames.Success || f.result == Frames.FecSuccess
    requires f.slice.Some? && f.slice.value.P? && f.slice.value.reference < 0xff
    requires ReferenceIndex(Index(s.progress.cur), f.slice.value.reference) !in References(s.progress.log)
    ensures var r, refs, index := Flushed(s, f, true), References(s.progress.log), Index(s.progress.cur);
            && (forall k :: f.canChange && f.slice.value.reference < k < 16 && ReferenceIndex(index, k) in refs
                            && (forall j :: f.slice.value.reference < j < k ==> ReferenceIndex(index, j) !in refs) ==>
                  r.progress.log == s.progress.log + [Submitted(s.progress.cur, Some(k), f.ok)] && r.missing == 0
                  && r.lost == 0 && r.complete == if f.ok then index else s.complete)
            && (!f.canChange || (forall k :: f.slice.value.reference < k < 16 ==> ReferenceIndex(index, k) !in refs) ==>
                  r.progress.log == s.progress.log && r.missing == s.missing + 1 && r.complete == s.complete
                  && r.lost == if s.lost + 1 < 0x1_0000_0000 then s.lost + 1 else 0xffff_ffff)
  {
    hide Flushed;
    RecoversOrNot(s, f);
    var refs, index := References(s.progress.log), Index(s.progress.cur);
    forall k | f.canChange && f.slice.value.reference < k < 16 && ReferenceIndex(index, k) in refs
               && forall j :: f.slice.value.reference < j < k ==> ReferenceIndex(index, j) !in refs
      ensures NearestBack(refs, index, f.slice.value.reference) == Some(k)
    {
      NearestBackIs(refs, index, f.slice.value.reference);
    }
    NearestBackIs(refs, index, f.slice.value.reference);
  }

  function NearestBack(refs: seq<u16>, index: u16, reference: nat): Option<nat> {
    Nearest(refs, index, NextBack(reference))
  }

  lemma NearestBackIs(refs: seq<u16>, index: u16, reference: nat)
    requires reference < 0xff
    ensures var r := NearestBack(refs, index, reference);
            && (r.Some? ==> reference < r.value < 16 && ReferenceIndex(index, r.value) in refs)
            && forall j :: reference < j < (if r.Some? then r.value else 16) ==> ReferenceIndex(index, j) !in refs
  {
    NextBackIs(reference);
  }

  lemma RecoversOrNot(s: State, f: Flushing)
    requires s.progress.cur >= 0 && !s.progress.flushed && s.missing < 3
    requires f.result == Frames.Success || f.result == Frames.FecSuccess
    requires f.slice.Some? && f.slice.value.P? && f.slice.value.reference < 0xff
    requires ReferenceIndex(Index(s.progress.cur), f.slice.value.reference) !in References(s.progress.log)
    ensures var r, refs, index := Flushed(s, f, true), References(s.progress.log), Index(s.progress.cur);
            var back := NearestBack(refs, index, f.slice.value.reference);
            if f.canChange && back.Some? then
              r.progress.log == s.progress.log + [Submitted(s.progress.cur, back, f.ok)] && r.missing == 0
              && r.lost == 0 && r.complete == if f.ok then index else s.complete
            else
              r.progress.log == s.progress.log && r.missing == s.missing + 1 && r.complete == s.complete
              && r.lost == if s.lost + 1 < 0x1_0000_0000 then s.lost + 1 else 0xffff_ffff
  {
    hide Index, References, Nearest, ReferenceIndex, IdrAfter, FailureBooked, NextBack;
  }

  lemma NextBackIs(reference: nat)
    requires reference < 0xff
    ensures NextBack(reference) == reference + 1
  {
  }

  /** A packet of an old frame or of an unknown stream changes nothing but the gaps reported. */
  lemma StaleIgnored(s: State, a: Arrival, profilesCount: nat, hasCallback: bool)
    requires a.frame < s.progress.cur || a.stream >= profilesCount
    ensures Arrived(s, a, profilesCount, hasCallback) == s.(ledger := Arrived(s, a, profilesCount, hasCallback).ledger)
  {
  }

  /** Any other packet makes its frame the current one; the one before has been flushed by then. If the frame can be
      flushed, it is: afterwards the current frame is flushed exactly if it was, or could be. */
  lemma PacketFlushes(s: State, a: Arrival, profilesCount: nat, hasCallback: bool)
    requires a.frame >= s.progress.cur && a.stream < profilesCount
    ensures var r := Arrived(s, a, profilesCount, hasCallback);
            && r.progress.cur == a.frame
            && (r.progress.flushed <==> a.flushPossible || (a.frame == s.progress.cur && s.progress.flushed))
  {
    hide Flushed, GapFlushed, Detected, DeadlineAfter, GapBefore;
  }

  /** So a frame of which enough has arrived is submitted, if it needs no reference, or none that is not held. */
  lemma PacketSubmits(s: State, a: Arrival, profilesCount: nat)
    requires a.frame >= s.progress.cur && a.stream < profilesCount && a.flushPossible && s.missing <= 1
    requires a.frame == s.progress.cur ==> !s.progress.flushed
    requires a.second.result == Frames.Success || a.second.result == Frames.FecSuccess
    requires a.second.slice.None? || !a.second.slice.value.P? || a.second.slice.value.reference == 0xff
    ensures var log := Arrived(s, a, profilesCount, true).progress.log;
            s.progress.log < log && log[|log| - 1] == Submitted(a.frame, None, a.second.ok)
  {
    hide GapFlushed, Detected, DeadlineAfter, GapBefore;
    var g := DueReported(s, a.nowMs);
    MissingGrows(g, a.first, true);
    var g' := if Begins(g.progress.cur, a, profilesCount) then NewFrame(g, a, true) else g;
    FlushSubmits(g', a.second);
  }

  lemma MissingGrows(s: State, f: Flushing, hasCallback: bool)
    ensures Ended(s, f, hasCallback).missing <= s.missing + 1
    ensures s.progress.log <= Ended(s, f, hasCallback).progress.log
  {
  }

  /** Without a callback to hand frames to, a whole frame that does not lack its reference is complete all the same. */
  lemma FlushUnheard(s: State, f: Flushing)
    requires s.progress.cur >= 0 && !s.progress.flushed && s.missing < 3
    requires f.result == Frames.Success || f.result == Frames.FecSuccess
    requires f.slice.Some? && f.slice.value.P? && f.slice.value.reference != 0xff ==>
               ReferenceIndex(Index(s.progress.cur), f.slice.value.reference) in References(s.progress.log)
    ensures var r := Flushed(s, f, false);
            && r.progress.log == s.progress.log && r.complete == Index(s.progress.cur) && r.lost == s.lost
            && r.missing == (if f.slice == Some(I) then 0 else s.missing) && r.ledger == s.ledger
  {
  }

  /** These entries of a log are all the frames accepted since the references were last reset. */
  ghost predicate AllAccepted(log: seq<Entry>, at: seq<nat>) {
    && (forall j :: 0 <= j < |at| ==> at[j] < |log| && log[at[j]].Submitted? && log[at[j]].ok)
    && (forall i, j :: 0 <= i < j < |at| ==> at[i] < at[j])
    && (forall i, j :: 0 <= j < |at| && at[j] <= i < |log| ==> log[i] != Reset)
    && (forall i :: 0 <= i < |log| && log[i].Submitted? && log[i].ok && i !in at ==>
          exists r :: i < r < |log| && log[r] == Reset)
  }

  /** These are the frames of these entries. */
  ghost predicate FramesAt(log: seq<Entry>, frames: seq<nat>, at: seq<nat>) {
    && |frames| == |at|
    && forall j :: 0 <= j < |at| ==> at[j] < |log| && log[at[j]].Submitted? && frames[j] == log[at[j]].frame
  }

  lemma {:induction false} AcceptedAre(log: seq<Entry>) returns (at: seq<nat>)
    ensures AllAccepted(log, at) && FramesAt(log, Accepted(log), at)
  {
    if log == [] {
      at := [];
      NoneAccepted();
    } else {
      hide AllAccepted, FramesAt;
      var n := |log| - 1;
      at := AcceptedAre(log[..n]);
      AcceptedStep(log, at);
      FramesStep(log, Accepted(log[..n]), at);
      AcceptedLast(log);
      at := if log[n] == Reset then [] else if log[n].ok then at + [n] else at;
    }
  }

  lemma NoneAccepted()
    ensures AllAccepted([], []) && FramesAt([], Accepted([]), [])
  {
  }

  lemma AcceptedLast(log: seq<Entry>)
    requires log != []
    ensures var n := |log| - 1;
            Accepted(log) == if log[n] == Reset then []
                             else if log[n].ok then Accepted(log[..n]) + [log[n].frame] else Accepted(log[..n])
  {
  }

  lemma FramesStep(log: seq<Entry>, frames: seq<nat>, at: seq<nat>)
    requires log != [] && FramesAt(log[..|log| - 1], frames, at)
    ensures FramesAt(log, frames, at) && FramesAt(log, [], [])
    ensures var n := |log| - 1; log[n].Submitted? ==> FramesAt(log, frames + [log[n].frame], at + [n])
  {
  }

  lemma AcceptedStep(log: seq<Entry>, at: seq<nat>)
    requires log != [] && AllAccepted(log[..|log| - 1], at)
    ensures var n := |log| - 1;
            AllAccepted(log, if log[n] == Reset then [] else if log[n].ok then at + [n] else at)
  {
    var n := |log| - 1;
    var before, at' := log[..n], if log[n] == Reset then [] else if log[n].ok then at + [n] else at;
    forall i | 0 <= i < |log| && log[i].Submitted? && log[i].ok && i !in at'
      ensures exists r :: i < r < |log| && log[r] == Reset
    {
      if log[n] == Reset {
        assert i < n && log[n] == Reset;
      } else {
        assert i < n && before[i] == log[i] && i !in at;
        var r :| i < r < n && before[r] == Reset;
        assert log[r] == Reset;
      }
    }
  }

  /** The references are the latest, up to sixteen, of the frames accepted since the last reset, and no others. */
  ghost predicate ReferencesAt(log: seq<Entry>, refs: seq<u16>, at: seq<nat>) {
    && AllAccepted(log, at) && |refs| == (if |at| < 16 then |at| else 16)
    && forall j :: 0 <= j < |refs| ==> IsReference(log, refs[j], at[|at| - |refs| + j])
  }

  predicate IsReference(log: seq<Entry>, ref: u16, i: nat) {
    i < |log| && log[i].Submitted? && ref == Index(log[i].frame)
  }

  lemma ReferencesAre(log: seq<Entry>) returns (at: seq<nat>)
    ensures ReferencesAt(log, References(log), at)
  {
    hide AllAccepted, Index, Latest;
    at := AcceptedAre(log);
    var frames, refs := Accepted(log), References(log);
    LatestAre(frames);
    forall j | 0 <= j < |refs| ensures IsReference(log, refs[j], at[|at| - |refs| + j]) {
      assert frames[|at| - |refs| + j] == log[at[|at| - |refs| + j]].frame;
    }
  }

  lemma LatestAre(frames: seq<nat>)
    ensures |Latest(frames)| == if |frames| < 16 then |frames| else 16
    ensures forall j :: 0 <= j < |Latest(frames)| ==> Latest(frames)[j] == frames[|frames| - |Latest(frames)| + j]
  {
  }

  /** After any packet a gap is held only as long as its time has not come and it is shorter than 12 frames. */
  lemma HeldInTime(s: State, a: Arrival, profilesCount: nat, hasCallback: bool)
    ensures var r := Arrived(s, a, profilesCount, hasCallback);
            HeldAfter(r.ledger).Some? ==> a.nowMs < r.deadlineMs && Extent(HeldAfter(r.ledger).value) + 1 < 12
  {
    hide Joined, ReportOf, SentOrSkipped, FlushedBy, MissingAfter, CompleteAfter, LostAfter, IdrAfter;
    FlushedInTime(s.ledger, s.deadlineMs, a.nowMs);
    var g := DueReported(s, a.nowMs);
    KeptByFlush(g, a.first, hasCallback);
    if Begins(g.progress.cur, a, profilesCount) {
      var e := Ended(g, a.first, hasCallback);
      var gap := GapBefore(Index(a.frame), e.complete, IndexOf(g.progress.cur));
      DetectedInTime(e.ledger, e.deadlineMs, gap, a.nowMs);
      KeptByFlush(NewFrame(g, a, hasCallback), a.second, hasCallback);
    } else {
      KeptByFlush(g, a.second, hasCallback);
    }
  }

  lemma FlushedInTime(l: Ledger, deadlineMs: nat, nowMs: nat)
    ensures var held := HeldAfter(GapFlushed(l, deadlineMs, nowMs, false));
            held.Some? ==> nowMs < deadlineMs && Extent(held.value) + 1 < 12
  {
  }

  lemma DetectedInTime(l: Ledger, deadlineMs: nat, gap: seq<Range>, nowMs: nat)
    requires |gap| <= 1 && forall i :: 0 <= i < |gap| ==> Short(gap[i])
    requires HeldAfter(l).Some? ==> nowMs < deadlineMs && Extent(HeldAfter(l).value) + 1 < 12
    ensures var held := HeldAfter(Detected(l, deadlineMs, gap, nowMs));
            held.Some? ==> nowMs < DeadlineAfter(l, deadlineMs, gap, nowMs) && Extent(held.value) + 1 < 12
  {
    if gap != [] { FlushedInTime(GapHeld(l, gap[0]), DeadlineAfter(l, deadlineMs, gap, nowMs), nowMs); }
  }

  lemma KeptByFlush(s: State, f: Flushing, hasCallback: bool)
    ensures var r := Ended(s, f, hasCallback);
            HeldAfter(r.ledger) == HeldAfter(s.ledger) && r.deadlineMs == s.deadlineMs
  {
  }

  /** And until then it is held: a packet that reveals no gap leaves it as it is, and one that reveals another short gap
      leaves the longer of the two if both start with the same frame, else the new one. */
  lemma HeldUntilDue(s: State, a: Arrival, profilesCount: nat, hasCallback: bool)
    requires HeldAfter(s.ledger).Some? ==> a.nowMs < s.deadlineMs && Extent(HeldAfter(s.ledger).value) + 1 < 12
    ensures var held, gaps := HeldAfter(s.ledger), GapsBy(s, a, profilesCount, hasCallback);
            var held' := HeldAfter(Arrived(s, a, profilesCount, hasCallback).ledger);
            && (gaps == [] ==> held' == held)
            && (forall gap :: gaps == [gap] && Extent(gap) + 1 < 12 ==>
                  held' == if held.Some? && held.value.start == gap.start && Extent(gap) <= Extent(held.value) then held
                           else Some(gap))
  {
    hide ReportOf, SentOrSkipped, FlushedBy, MissingAfter, CompleteAfter, LostAfter, IdrAfter, Extent;
    var g := DueReported(s, a.nowMs);
    NotYetDue(s.ledger, s.deadlineMs, a.nowMs);
    assert g == s;
    KeptByFlush(s, a.first, hasCallback);
    if Begins(s.progress.cur, a, profilesCount) {
      var e := Ended(s, a.first, hasCallback);
      var gaps := GapBefore(Index(a.frame), e.complete, IndexOf(s.progress.cur));
      if gaps != [] { ShortGapHeld(e.ledger, e.deadlineMs, gaps[0], a.nowMs); }
      KeptByFlush(NewFrame(s, a, hasCallback), a.second, hasCallback);
    } else {
      KeptByFlush(s, a.second, hasCallback);
    }
  }

  lemma NotYetDue(l: Ledger, deadlineMs: nat, nowMs: nat)
    requires HeldAfter(l).Some? ==> nowMs < deadlineMs && Extent(HeldAfter(l).value) + 1 < 12
    ensures GapFlushed(l, deadlineMs, nowMs, false) == l
  {
  }

  lemma ShortGapHeld(l: Ledger, deadlineMs: nat, gap: Range, nowMs: nat)
    requires Short(gap) && (HeldAfter(l).Some? ==> nowMs < deadlineMs && Extent(HeldAfter(l).value) + 1 < 12)
    ensures var held := HeldAfter(l);
            Extent(gap) + 1 < 12 ==>
              HeldAfter(Detected(l, deadlineMs, [gap], nowMs))
              == if held.Some? && held.value.start == gap.start && Extent(gap) <= Extent(held.value) then held
                 else Some(gap)
  {
    var held := HeldAfter(GapHeld(l, gap));
    if Extent(gap) + 1 < 12 {
      NotYetDue(GapHeld(l, gap), DeadlineAfter(l, deadlineMs, [gap], nowMs), nowMs);
    }
  }

  /** A gap that is not joined with the one held falls due 24 ms later; one that is, when that does. */
  lemma DueTime(s: State, a: Arrival, hasCallback: bool)
    requires a.frame > s.progress.cur
    ensures var e, r := Ended(s, a.first, hasCallback), NewFrame(s, a, hasCallback);
            var gap, held := GapBefore(Index(a.frame), e.complete, IndexOf(s.progress.cur)), HeldAfter(e.ledger);
            r.deadlineMs == if gap == [] || (held.Some? && held.value.start == gap[0].start) then s.deadlineMs
                            else a.nowMs + 24
  {
    KeptByFlush(s, a.first, hasCallback);
  }
}
