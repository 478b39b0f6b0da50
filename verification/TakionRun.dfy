/** Whole runs of the receiving half of the data channel. */
module TakionRun {
  import opened Basics
  import opened TakionData
  import SeqNum
  import RQ = ReorderQueue

  /** What can happen to a receiver: a packet arrives whose true number is `delta` past the head of the
      window, the crypt becomes known, or a drain is requested. */
  datatype Action =
    | Arrive(delta: int, payload: seq<int>)
    | Recheck(badMac: DataEntry -> bool)
    | DrainRequest

  /** The arrivals of a script that are long enough to be taken in. */
  function Accepted(script: seq<Action>): seq<Action> {
    if script == [] then []
    else
      var a := script[|script| - 1];
      Accepted(script[..|script| - 1]) + if a.Arrive? && |a.payload| >= 9 then [a] else []
  }

  /** These are the arrivals on record. */
  ghost predicate Receives(h: Run, accepted: seq<Action>) {
    && |h.arrived| == |h.ahead| == |accepted|
    && forall i :: 0 <= i < |accepted| ==> accepted[i] == Arrive(h.ahead[i], h.arrived[i].1.payload)
  }

  lemma ReceivesStep(script: seq<Action>, k: nat, h: Run, h': Run)
    requires k < |script| && Receives(h, Accepted(script[..k]))
    requires var a := script[k];
             if a.Arrive? then ArrivesAs(h, h', a.delta, a.payload) else h'.arrived == h.arrived && h'.ahead == h.ahead
    ensures Receives(h', Accepted(script[..k + 1]))
  {
    assert script[..k + 1][..k] == script[..k];
    assert h.arrived <= h'.arrived && h.ahead <= h'.ahead;
    ReceivesMore(h, h', Accepted(script[..k]), Accepted(script[..k + 1]));
  }

  lemma ReceivesMore(h: Run, h': Run, before: seq<Action>, after: seq<Action>)
    requires Receives(h, before) && before <= after && h.arrived <= h'.arrived && h.ahead <= h'.ahead
    requires |h'.arrived| == |h'.ahead| == |after| <= |before| + 1
    requires |after| == |before| + 1 ==>
               after[|before|] == Arrive(h'.ahead[|before|], h'.arrived[|before|].1.payload)
    ensures Receives(h', after)
  {
    hide *;
    forall i | 0 <= i < |after| ensures after[i] == Arrive(h'.ahead[i], h'.arrived[i].1.payload) {
      if i < |before| {
        assert before[i] == Arrive(h.ahead[i], h.arrived[i].1.payload) by { ReceivedAt(h, before, i); }
      }
    }
    ReceivesIs(h', after);
  }

  lemma ReceivedAt(h: Run, accepted: seq<Action>, i: nat)
    requires Receives(h, accepted) && i < |accepted|
    ensures |h.arrived| == |h.ahead| == |accepted| && accepted[i] == Arrive(h.ahead[i], h.arrived[i].1.payload)
  {
  }

  lemma ReceivesIs(h: Run, accepted: seq<Action>)
    requires |h.arrived| == |h.ahead| == |accepted|
    requires forall i :: 0 <= i < |accepted| ==> accepted[i] == Arrive(h.ahead[i], h.arrived[i].1.payload)
    ensures Receives(h, accepted)
  {
  }

  ghost predicate NoRecheck(script: seq<Action>) {
    forall i :: 0 <= i < |script| ==> !script[i].Recheck?
  }

  lemma NoRecheckStep(script: seq<Action>, k: nat)
    requires k < |script|
    ensures NoRecheck(script[..k + 1]) <==> NoRecheck(script[..k]) && !script[k].Recheck?
  {
    assert script[..k + 1] == script[..k] + [script[k]];
  }

  lemma ArrivalEffect(h: Run, n: int, e: DataEntry)
    requires e.id == |h.arrived|
    ensures var h' := Arrival(h, n, e);
            && h'.arrived == h.arrived + [(n, e)] && h'.ahead == h.ahead + [n - h.pos]
            && h'.pulled == h.pulled && h'.removed == h.removed && h'.size == h.size
  {}

  /** The packet is on record, unless it is too short to be taken in. */
  ghost predicate ArrivesAs(h: Run, h': Run, delta: int, payload: seq<int>) {
    if |payload| < 9 then h'.arrived == h.arrived && h'.ahead == h.ahead
    else
      && |h'.arrived| == |h.arrived| + 1 && h.arrived <= h'.arrived && h'.ahead == h.ahead + [delta]
      && h'.arrived[|h.arrived|].0 == h.pos + delta && h'.arrived[|h.arrived|].1.payload == payload
  }

  /** What a run starts from: the first number, the greatest threshold, what the clock shows each time it is read, and
      whether the recheck gives peek a place for the number (the code does not). */
  datatype Setting = Setting(initialSeqNum: int, maxThresholdUs: nat, clock: nat -> nat, seqGiven: bool)

  /** Where a run stands: the history, how often the clock has been read, and the estimate of the jitter. */
  datatype Moment = Moment(h: Run, tick: nat, jitter: Jitter)

  /** What an action does. A packet is numbered, stamped and pushed, and the queue is drained with the new
      threshold. */
  ghost function After(m: Moment, a: Action, c: Setting): Moment {
    match a
    case Arrive(delta, payload) =>
      if |payload| < 9 then m
      else
        var now := c.clock(m.tick);
        var jitter := Jittered(m.jitter, now);
        var h := Arrival(m.h, m.h.pos + delta, DataEntry(|m.h.arrived|, payload, now));
        var (h', tick) := Drain(h, c.clock, m.tick + 1, Threshold(jitter.us, c.maxThresholdUs));
        Moment(h', tick, jitter)
    case Recheck(badMac) => Moment(Rechecked(m.h, badMac, m.h.pos, m.h.pos + m.h.size), m.tick, m.jitter)
    case DrainRequest => m
  }

  ghost function Outcome(script: seq<Action>, c: Setting): Moment {
    if script == [] then Moment(EmptyRun(c.initialSeqNum), 0, Jitter(0, 0, 0))
    else After(Outcome(script[..|script| - 1], c), script[|script| - 1], c)
  }

  /** A recheck without a place for the number ends the run at the first packet it finds. */
  ghost predicate Faults(m: Moment, a: Action, c: Setting) {
    a.Recheck? && !c.seqGiven && !NothingHeld(m.h.held)
  }

  /** How far a script gets, once `k` of its actions are done: to its end or to the first fault. */
  ghost function Reached(script: seq<Action>, c: Setting, k: nat): (n: nat)
    requires k <= |script|
    ensures k <= n <= |script|
    ensures forall j :: k <= j < n ==> !Faults(Outcome(script[..j], c), script[j], c)
    ensures n < |script| ==> Faults(Outcome(script[..n], c), script[n], c)
    decreases |script| - k
  {
    if k == |script| || Faults(Outcome(script[..k], c), script[k], c) then k else Reached(script, c, k + 1)
  }

  /** The part of a script that is performed. */
  ghost function Done(script: seq<Action>, c: Setting): seq<Action> {
    script[..Reached(script, c, 0)]
  }

  /** The true numbers acknowledged: after each action that pulled packets, the last one pulled. */
  ghost function AckNums(script: seq<Action>, c: Setting): seq<int> {
    if script == [] then []
    else
      var before := script[..|script| - 1];
      AckNumsAfter(AckNums(before, c), Outcome(before, c).h, Outcome(script, c).h)
  }

  /**
   * What an action does, said of the packets. A packet that is long enough is let in iff it is in the window and its
   * number is not held, and else dropped; what is held is then drained with the new threshold. A recheck leaves the
   * packets held whose MAC is right; as the code stands there are none. Nothing else changes anything.
   */
  ghost predicate Moves(m: Moment, a: Action, m': Moment, c: Setting) {
    match a
    case Arrive(delta, payload) =>
      if |payload| < 9 then m' == m
      else
        && m'.jitter == Jittered(m.jitter, c.clock(m.tick))
        && exists h :: Enters(m.h, h, delta, DataEntry(|m.h.arrived|, payload, c.clock(m.tick)))
             && DrainedBy(h, m'.h, c.clock, m.tick + 1, m'.tick, Threshold(m'.jitter.us, c.maxThresholdUs))
    case Recheck(badMac) => m' == m.(h := m'.h) && (if c.seqGiven then Purged(m.h, m'.h, badMac) else m' == m)
    case DrainRequest => m' == m
  }

  ghost predicate Enters(h: History, h': History, delta: int, e: DataEntry) {
    var n := h.pos + delta;
    var recorded := h.(arrived := h.arrived + [(n, e)], ahead := h.ahead + [delta]);
    if 0 <= delta < h.size && n !in h.held then h' == recorded.(held := h.held[n := e])
    else h' == recorded.(dropped := h.dropped + [(n, e)])
  }

  ghost predicate Purged(h: History, h': History, badMac: DataEntry -> bool) {
    && h'.arrived == h.arrived && h'.ahead == h.ahead && h'.pulled == h.pulled && h'.pos == h.pos && h'.size == h.size
    && forall n :: (n in h'.held <==> n in h.held && (n >= h.pos + h.size || !badMac(h.held[n])))
                   && (n in h'.held ==> h'.held[n] == h.held[n])
  }

  /** The moments of a run that does these actions one after the other. */
  ghost predicate Ran(script: seq<Action>, ms: seq<Moment>, c: Setting) {
    && |ms| == |script| + 1
    && ms[0] == Moment(History([], [], [], [], {}, map[], c.initialSeqNum, 256), 0, Jitter(0, 0, 0))
    && forall k :: 0 <= k < |script| ==> Moves(ms[k], script[k], ms[k + 1], c)
  }

  /** As far as a run gets it is made up of such moves. */
  lemma {:induction false} RunMoves(script: seq<Action>, c: Setting, n: nat) returns (ms: seq<Moment>)
    requires n <= Reached(script, c, 0)
    ensures Ran(script[..n], ms, c) && ms[n] == Outcome(script[..n], c)
  {
    if n == 0 {
      ms := [Outcome([], c)];
    } else {
      hide History.Faithful, After, Moves, Faults;
      ms := RunMoves(script, c, n - 1);
      assert script[..n][..n - 1] == script[..n - 1];
      StepMoves(ms[n - 1], script[n - 1], c);
      ms := RanMore(script[..n], ms, Outcome(script[..n], c), c);
    }
  }

  lemma RanMore(script: seq<Action>, ms: seq<Moment>, m: Moment, c: Setting) returns (more: seq<Moment>)
    requires script != [] && Ran(script[..|script| - 1], ms, c)
    requires Moves(ms[|script| - 1], script[|script| - 1], m, c)
    ensures Ran(script, more, c) && more[|script|] == m
  {
    hide History.Faithful, Moves;
    more := ms + [m];
    forall k | 0 <= k < |script| ensures Moves(more[k], script[k], more[k + 1], c) {
      if k < |script| - 1 { assert Moves(ms[k], script[..|script| - 1][k], ms[k + 1], c); }
    }
  }

  lemma StepMoves(m: Moment, a: Action, c: Setting)
    requires !Faults(m, a, c)
    ensures Moves(m, a, After(m, a, c), c)
  {
    hide History.Faithful, DrainedBy, Enters, Jittered, Purged;
    if a.Arrive? && |a.payload| >= 9 {
      var e := DataEntry(|m.h.arrived|, a.payload, c.clock(m.tick));
      var h := Arrival(m.h, m.h.pos + a.delta, e);
      ArrivalEnters(m.h, a.delta, e);
      DrainIs(h, c.clock, m.tick + 1, Threshold(Jittered(m.jitter, c.clock(m.tick)).us, c.maxThresholdUs));
    } else if a.Recheck? {
      if c.seqGiven {
        RecheckPurges(m.h, a.badMac);
      } else {
        RecheckedNone(m.h, a.badMac, m.h.pos, m.h.pos + m.h.size);
      }
    }
  }

  lemma ArrivalEnters(h: Run, delta: int, e: DataEntry)
    requires e.id == |h.arrived|
    ensures Enters(h, Arrival(h, h.pos + delta, e), delta, e)
  {
    hide History.Faithful;
  }

  lemma RecheckPurges(h: Run, badMac: DataEntry -> bool)
    ensures Purged(h, Rechecked(h, badMac, h.pos, h.pos + h.size), badMac)
  {
    hide History.Faithful, Rechecked, Rechecking, Purged;
    RecheckingStart(h, badMac);
    RecheckingAll(h, h, badMac, h.pos);
    RecheckingPurged(h, Rechecked(h, badMac, h.pos, h.pos + h.size), badMac);
  }

  lemma RecheckingPurged(h: Run, h': Run, badMac: DataEntry -> bool)
    requires Rechecking(h, h', badMac, h.pos + h.size)
    ensures Purged(h, h', badMac)
  {
    hide History.Faithful, Rechecked;
  }

  lemma {:induction false} RecheckingAll(h: Run, h': Run, badMac: DataEntry -> bool, n: int)
    requires Rechecking(h, h', badMac, n) && n <= h.pos + h.size
    ensures Rechecking(h, Rechecked(h, badMac, h.pos, h.pos + h.size), badMac, h.pos + h.size)
    decreases h.pos + h.size - n
  {
    hide History.Faithful, Swept;
    if n < h.pos + h.size {
      var next := if n in h'.held && badMac(h'.held[n]) then Removed(h', n) else h';
      RecheckingStep(h, h', next, badMac, n);
      RecheckingAll(h, next, badMac, n + 1);
    }
  }

  method ActArrive(t: DataReceiver, delta: int, payload: seq<int>, ghost h: Run)
    returns (events: seq<DataEvent>, ack: Option<int>, ghost h': Run)
    requires t.Idle(h) && t.queue.modulus == SeqNum.MOD32 && t.nextId == |h.arrived|
    requires -(SeqNum.MOD32 / 2) < delta < SeqNum.MOD32 / 2
    modifies t, t.queue, t.queue.ring
    ensures t.Idle(h') && t.nextId == |h'.arrived|
    ensures Progress(h, h', events, ack, SeqNum.MOD32)
    ensures ArrivesAs(h, h', delta, payload) && h'.removed == h.removed && h'.size == h.size
    ensures Moment(h', t.ticks, t.Estimate())
         == After(Moment(h, old(t.ticks), old(t.Estimate())), Arrive(delta, payload), SettingOf(t, true))
  {
    hide History.Faithful, Drain;
    SeqNum.AddResidue(t.queue.modulus, h.pos, delta);
    t.queue.FirstName();
    var seqNum := SeqNum.Add(t.queue.modulus, t.queue.begin, delta);
    ArrivalEffect(h, h.pos + delta, DataEntry(|h.arrived|, payload, t.clock(t.ticks)));
    events, ack, h' := t.HandleData(payload, seqNum, h.pos + delta, h);
  }

  ghost function SettingOf(t: DataReceiver, seqGiven: bool): Setting {
    Setting(0, t.maxThresholdUs, t.clock, seqGiven)
  }

  ghost predicate LeadsTo(m: Moment, a: Action, c: Setting, m': Moment) {
    m' == After(m, a, c)
  }

  method Act(t: DataReceiver, action: Action, seqGiven: bool, ghost h: Run)
    returns (completed: bool, events: seq<DataEvent>, ack: Option<int>, ghost h': Run)
    requires t.Idle(h) && t.queue.modulus == SeqNum.MOD32 && t.nextId == |h.arrived|
    requires action.Arrive? ==> -(SeqNum.MOD32 / 2) < action.delta < SeqNum.MOD32 / 2
    modifies t, t.queue, t.queue.ring
    ensures completed <==> !Faults(Moment(h, old(t.ticks), old(t.Estimate())), action, SettingOf(t, seqGiven))
    ensures t.Idle(h') && t.nextId == |h'.arrived| && h'.size == h.size
    ensures !completed ==> h' == h && t.ticks == old(t.ticks) && t.Estimate() == old(t.Estimate())
    ensures Progress(h, h', events, ack, SeqNum.MOD32)
    ensures !completed ==> events == [] && ack == None
    ensures if action.Arrive? then ArrivesAs(h, h', action.delta, action.payload)
            else h'.arrived == h.arrived && h'.ahead == h.ahead
    ensures !action.Recheck? || !seqGiven ==> h'.removed == h.removed
    ensures completed ==> LeadsTo(Moment(h, old(t.ticks), old(t.Estimate())), action, SettingOf(t, seqGiven),
                                  Moment(h', t.ticks, t.Estimate()))
  {
    hide History.Faithful, RQ.ReorderQueue.Valid, RQ.ReorderQueue.HintExact, Jittered;
    completed := true;
    match action
    case Arrive(delta, payload) =>
      events, ack, h' := ActArrive(t, delta, payload, h);
    case Recheck(badMac) =>
      completed, h' := t.RecheckMacs(badMac, seqGiven, h);
      if !seqGiven && completed { RecheckedNone(h, badMac, h.pos, h.pos + h.size); }
      events, ack := [], None;
    case DrainRequest =>
      ack, h' := t.DropDataQueue(h);
      events := [];
  }

  /**
   * Over every run, up to the first fault if there is one: the history is the one the script determines; each arrival
   * is pulled, dropped or still held, exactly once; packets are pulled in strictly increasing order, each being the
   * first arrival of its number that was not lost; the events are those of the packets pulled; every acknowledgement
   * names the last packet pulled so far; the packets dropped are those handed to the drop callback. As the code
   * stands no packet is ever removed for its MAC: a recheck that gets through has found none.
   */
  method Receive(c: Setting, script: seq<Action>)
    returns (events: seq<DataEvent>, acks: seq<int>, drops: seq<RQ.Drop<DataEntry>>, completed: bool)
    requires 0 <= c.initialSeqNum < SeqNum.MOD32 && AllNear(script)
    ensures completed <==> Reached(script, c, 0) == |script|
    ensures var done := Done(script, c);
            var h := Outcome(done, c).h;
            && events == EventsOf(h.pulled) && Delivered(h.pulled, events)
            && Acknowledged(acks, AckNums(done, c), h.pulled)
            && Receives(h, Accepted(done)) && (NoRecheck(done) || !c.seqGiven ==> h.removed == {})
            && PacketsIn(drops) == DropsOf(h.dropped, SeqNum.MOD32)
            && Kept(h) && exists ms: seq<Moment> :: Ran(done, ms, c) && ms[|done|].h == h
  {
    ghost var ms := RunMoves(script, c, Reached(script, c, 0));
    events, acks, drops, completed := RunScript(c, script);
    RunsKeep(Outcome(Done(script, c), c).h);
    EventsMatch(Outcome(Done(script, c), c).h.pulled);
  }

  /** What every history keeps. */
  ghost predicate Kept(h: History) {
    && multiset(h.arrived) == multiset(h.pulled) + multiset(h.dropped) + multiset(h.held.Items)
    && (forall i, j :: 0 <= i < j < |h.pulled| ==> h.pulled[i].0 < h.pulled[j].0)
    && (forall i :: 0 <= i < |h.pulled| ==> h.FirstKept(h.pulled[i].0, h.pulled[i].1))
    && (forall n :: n in h.held ==> h.pos <= n && h.FirstKept(n, h.held[n]))
    && Settled(h)
  }

  /** An arrival is no longer wanted only if its number has been passed or is held, or else it came from beyond the
      window, or a packet of its number was removed. */
  ghost predicate Settled(h: History) {
    && |h.ahead| == |h.arrived|
    && forall j :: 0 <= j < |h.arrived| ==>
         h.ahead[j] >= h.size || h.arrived[j].0 in h.removed || h.arrived[j].0 < h.pos || h.arrived[j].0 in h.held
  }

  lemma RunsKeep(h: Run)
    ensures Kept(h)
  {
    InPullOrder(h);
    assert h.Accounted() && h.PulledFirst() && h.HeldFirst(h.held) && h.Settled();
    assert forall j :: 0 <= j < |h.arrived| && !h.Lost(j) ==> h.arrived[j].0 < h.pos || h.arrived[j].0 in h.held;
  }

  predicate AllNear(script: seq<Action>) {
    forall i :: 0 <= i < |script| && script[i].Arrive? ==>
      -(SeqNum.MOD32 / 2) < script[i].delta < SeqNum.MOD32 / 2
  }

  method RunScript(c: Setting, script: seq<Action>)
    returns (events: seq<DataEvent>, acks: seq<int>, drops: seq<RQ.Drop<DataEntry>>, completed: bool)
    requires 0 <= c.initialSeqNum < SeqNum.MOD32 && AllNear(script)
    ensures completed <==> Reached(script, c, 0) == |script|
    ensures Recorded(Outcome(Done(script, c), c).h, Done(script, c), c, events, acks, AckNums(Done(script, c), c))
    ensures PacketsIn(drops) == DropsOf(Outcome(Done(script, c), c).h.dropped, SeqNum.MOD32)
  {
    hide Faults, Recorded, RQ.ReorderQueue.Valid, RQ.ReorderQueue.HintExact, History.Faithful, After, AckNums;
    var t := new DataReceiver(c.initialSeqNum, c.maxThresholdUs, c.clock);
    events, acks, drops, completed := [], [], [], true;
    var k := 0;
    Start(script, c);
    while k < |script|
      invariant k <= |script| && fresh(t) && fresh(t.queue) && fresh(t.queue.ring)
      invariant Stands(t, script[..k], c, events, acks) && Reached(script, c, k) == Reached(script, c, 0)
    {
      assert script[..k + 1] == script[..k] + [script[k]];
      completed, events, acks := Take(t, script[..k], script[k], c, events, acks);
      if !completed {
        drops := DropsSoFar(t, script[..k], c, events, acks);
        return;
      }
      k := k + 1;
    }
    assert script[..k] == script;
    drops := DropsSoFar(t, script, c, events, acks);
  }

  method DropsSoFar(t: DataReceiver, ghost script: seq<Action>, ghost c: Setting, ghost events: seq<DataEvent>,
                    ghost acks: seq<int>)
    returns (drops: seq<RQ.Drop<DataEntry>>)
    requires Stands(t, script, c, events, acks)
    ensures PacketsIn(drops) == DropsOf(Outcome(script, c).h.dropped, SeqNum.MOD32)
  {
    drops := t.drops;
  }

  /** The records of what has been delivered and acknowledged agree with the history. */
  ghost predicate Recorded(h: Run, script: seq<Action>, c: Setting, events: seq<DataEvent>, acks: seq<int>,
                           ackNums: seq<int>) {
    && Receives(h, Accepted(script)) && (NoRecheck(script) || !c.seqGiven ==> h.removed == {})
    && events == EventsOf(h.pulled) && Acknowledged(acks, ackNums, h.pulled)
  }

  /** The receiver is where the script leads. */
  ghost predicate Stands(t: DataReceiver, script: seq<Action>, c: Setting, events: seq<DataEvent>, acks: seq<int>)
    reads t, t.queue, t.queue.ring
  {
    var m := Outcome(script, c);
    && t.Idle(m.h) && t.queue.modulus == SeqNum.MOD32 && t.nextId == |m.h.arrived|
    && t.clock == c.clock && t.maxThresholdUs == c.maxThresholdUs
    && t.ticks == m.tick && t.Estimate() == m.jitter
    && Recorded(m.h, script, c, events, acks, AckNums(script, c))
  }

  lemma Start(script: seq<Action>, c: Setting)
    ensures Outcome(script[..0], c) == Moment(EmptyRun(c.initialSeqNum), 0, Jitter(0, 0, 0))
    ensures Recorded(Outcome(script[..0], c).h, script[..0], c, [], [], AckNums(script[..0], c))
  {
    assert script[..0] == [];
  }

  method Take(t: DataReceiver, ghost script: seq<Action>, action: Action, c: Setting, events: seq<DataEvent>,
              acks: seq<int>)
    returns (completed: bool, events': seq<DataEvent>, acks': seq<int>)
    requires Stands(t, script, c, events, acks)
    requires action.Arrive? ==> -(SeqNum.MOD32 / 2) < action.delta < SeqNum.MOD32 / 2
    modifies t, t.queue, t.queue.ring
    ensures completed <==> !Faults(Outcome(script, c), action, c)
    ensures if completed then Stands(t, script + [action], c, events', acks')
            else Stands(t, script, c, events', acks') && events' == events && acks' == acks
  {
    hide History.Faithful, Receives, NoRecheck, Acknowledged, EventsOf, Accepted, AckNumsAfter, Recorded;
    ghost var m, all := Outcome(script, c), script + [action];
    assert all[..|script|] == script;
    var evs, ack;
    ghost var h';
    completed, evs, ack, h' := Act(t, action, c.seqGiven, m.h);
    if !completed { return false, events, acks; }
    SameStep(m, action, c, SettingOf(t, c.seqGiven));
    events', acks' := events + evs, if ack.Some? then acks + [ack.value] else acks;
    RecordedStep(m.h, h', script, action, c, events, evs, acks, ack, AckNums(script, c));
  }

  /** The first number does not matter any more. */
  lemma SameStep(m: Moment, a: Action, c: Setting, d: Setting)
    requires c.maxThresholdUs == d.maxThresholdUs && c.clock == d.clock
    ensures After(m, a, c) == After(m, a, d)
  {
  }

  lemma RecordedStep(h: Run, h': Run, script: seq<Action>, action: Action, c: Setting, events: seq<DataEvent>,
                     evs: seq<DataEvent>, acks: seq<int>, ack: Option<int>, ackNums: seq<int>)
    requires Recorded(h, script, c, events, acks, ackNums) && Progress(h, h', evs, ack, SeqNum.MOD32)
    requires if action.Arrive? then ArrivesAs(h, h', action.delta, action.payload)
             else h'.arrived == h.arrived && h'.ahead == h.ahead
    requires !action.Recheck? || !c.seqGiven ==> h'.removed == h.removed
    ensures Recorded(h', script + [action], c, events + evs, if ack.Some? then acks + [ack.value] else acks,
                     AckNumsAfter(ackNums, h, h'))
  {
    hide History.Faithful, Receives, Acknowledged;
    var all, k := script + [action], |script|;
    assert all[..k] == script && all[..k + 1] == all && all[k] == action;
    AcknowledgedStep(acks, ackNums, h, h', evs, ack);
    ReceivesStep(all, k, h, h');
    NoRecheckStep(all, k);
  }

  /** When the packets arrived. */
  function Times(ps: seq<Numbered>): (times: seq<nat>)
    ensures |times| == |ps| && forall i :: 0 <= i < |ps| ==> times[i] == ps[i].1.arrivalUs
  {
    if ps == [] then [] else Times(ps[..|ps| - 1]) + [ps[|ps| - 1].1.arrivalUs]
  }

  lemma TimesMore(ps: seq<Numbered>, n: int, e: DataEntry)
    ensures Times(ps + [(n, e)]) == Times(ps) + [e.arrivalUs]
  {
    assert (ps + [(n, e)])[..|ps|] == ps;
  }

  /** In every run the estimate of the jitter is that of the arrival times on record ... */
  lemma {:induction false} RunJitter(script: seq<Action>, c: Setting)
    ensures Outcome(script, c).jitter == EstimateOf(Times(Outcome(script, c).h.arrived))
  {
    hide History.Faithful, After, Jittered, Times;
    if script != [] {
      var before, a := Outcome(script[..|script| - 1], c), script[|script| - 1];
      RunJitter(script[..|script| - 1], c);
      AfterKeeps(before, a, c);
      if a.Arrive? && |a.payload| >= 9 {
        var now, times := c.clock(before.tick), Times(before.h.arrived);
        assert (times + [now])[..|times|] == times;
        assert EstimateOf(times + [now]) == Jittered(EstimateOf(times), now);
      }
    }
  }

  /** ... and so never exceeds the greatest change of the time between packets. */
  lemma RunJitterBounded(script: seq<Action>, c: Setting, bound: nat)
    requires Steady(Times(Outcome(script, c).h.arrived), bound) && 8 * bound < U64
    ensures Outcome(script, c).jitter.us <= bound
  {
    RunJitter(script, c);
    EstimateBounded(Times(Outcome(script, c).h.arrived), bound);
  }

  /** What an action does to the arrivals on record and the estimate. */
  lemma AfterKeeps(m: Moment, a: Action, c: Setting)
    ensures var m', now := After(m, a, c), c.clock(m.tick);
            if a.Arrive? && |a.payload| >= 9
            then m'.jitter == Jittered(m.jitter, now) && Times(m'.h.arrived) == Times(m.h.arrived) + [now]
            else m'.jitter == m.jitter && m'.h.arrived == m.h.arrived
  {
    hide History.Faithful, Drain, Rechecked, Arrival, Jittered, Times, Threshold;
    if a.Recheck? {
      RecheckKeeps(m.h, a.badMac, m.h.pos, m.h.pos + m.h.size);
    } else if a.Arrive? && |a.payload| >= 9 {
      var now, n := c.clock(m.tick), m.h.pos + a.delta;
      var e := DataEntry(|m.h.arrived|, a.payload, now);
      ArrivalEffect(m.h, n, e);
      TimesMore(m.h.arrived, n, e);
      DrainIs(Arrival(m.h, n, e), c.clock, m.tick + 1, Threshold(Jittered(m.jitter, now).us, c.maxThresholdUs));
    }
  }

  lemma {:induction false} RecheckKeeps(h: Run, badMac: DataEntry -> bool, n: int, end: int)
    ensures Rechecked(h, badMac, n, end).arrived == h.arrived
    decreases end - n
  {
    hide History.Faithful;
    if n < end { RecheckKeeps(if n in h.held && badMac(h.held[n]) then Removed(h, n) else h, badMac, n + 1, end); }
  }

  /** As the code stands: a packet one past the head is held, and the recheck that follows does not get through it,
      whatever it would have found. */
  lemma RecheckFaults(c: Setting, payload: seq<int>, badMac: DataEntry -> bool)
    requires !c.seqGiven && |payload| >= 9 && Elapsed(c.clock(1), c.clock(0)) <= Threshold(0, c.maxThresholdUs)
    ensures Reached([Arrive(1, payload), Recheck(badMac)], c, 0) == 1
  {
    hide History.Faithful;
    var script := [Arrive(1, payload), Recheck(badMac)];
    assert script[..0] == [] && script[..1] == [script[0]] && [script[0]][..0] == [];
    var h := Admitted(EmptyRun(c.initialSeqNum), c.initialSeqNum + 1, DataEntry(0, payload, c.clock(0)));
    assert c.initialSeqNum + 1 in h.held && FirstHeld(h.held) == c.initialSeqNum + 1;
    assert Drain(h, c.clock, 1, Threshold(0, c.maxThresholdUs)).0 == h;
    assert Outcome(script[..1], c).h == h;
    assert Reached(script, c, 1) == 1;
  }

  /** Whether a recheck gets through depends only on whether a packet is held: as the code stands it does iff none
      is. */
  lemma RecheckGetsThrough(script: seq<Action>, c: Setting, badMac: DataEntry -> bool)
    requires !c.seqGiven && Reached(script, c, 0) == |script|
    ensures Reached(script + [Recheck(badMac)], c, 0) == |script| + 1 <==> NothingHeld(Outcome(script, c).h.held)
  {
    var all := script + [Recheck(badMac)];
    assert all[..|script|] == script;
    assert forall j :: 0 <= j < |script| ==> all[..j] == script[..j] && all[j] == script[j];
    var n := Reached(all, c, 0);
  }

  /** A run in which a second arrival is the one pulled: 256 arrives too early at an empty queue, 0 arrives and is
      pulled, 256 is sent again, and as the clock moves by a second each time it is read the gap is skipped. */
  lemma SecondArrivalPulled(payload: seq<int>, seqGiven: bool)
    requires |payload| >= 9
    ensures var c := Setting(0, 20000, (t: nat) => t * 1000000, seqGiven);
            var script := [Arrive(256, payload), Arrive(0, payload), Arrive(255, payload)];
            var h := Outcome(script, c).h;
            && Done(script, c) == script
            && h.arrived == [(256, DataEntry(0, payload, 0)), (0, DataEntry(1, payload, 1000000)),
                             (256, DataEntry(2, payload, 2000000))]
            && h.pulled == [(0, DataEntry(1, payload, 1000000)), (256, DataEntry(2, payload, 2000000))]
  {
    hide History.Faithful, Faults;
    var c := Setting(0, 20000, (t: nat) => t * 1000000, seqGiven);
    var script := [Arrive(256, payload), Arrive(0, payload), Arrive(255, payload)];
    assert script[..0] == [] && script[..1][..0] == [] && script[..2][..1] == script[..1];
    var m1 := TooEarly(payload, c);
    assert Outcome(script[..1], c) == m1;
    var m2 := NextArrives(payload, c, m1);
    assert Outcome(script[..2], c) == m2;
    GapSkipped(payload, c, m2);
    NeverFaults(script, c);
  }

  lemma NeverFaults(script: seq<Action>, c: Setting)
    requires NoRecheck(script)
    ensures Done(script, c) == script
  {
  }

  lemma TooEarly(payload: seq<int>, c: Setting) returns (m: Moment)
    requires |payload| >= 9 && c.initialSeqNum == 0 && c.clock(0) == 0
    ensures m == After(Moment(EmptyRun(0), 0, Jitter(0, 0, 0)), Arrive(256, payload), c)
    ensures m.h.arrived == [(256, DataEntry(0, payload, 0))] && m.h.pulled == [] && m.h.held == map[]
    ensures m.h.pos == 0 && m.h.size == QUEUE_SIZE && m.tick == 1
  {
    m := After(Moment(EmptyRun(0), 0, Jitter(0, 0, 0)), Arrive(256, payload), c);
  }

  lemma NextArrives(payload: seq<int>, c: Setting, before: Moment) returns (m: Moment)
    requires |payload| >= 9 && c.clock(1) == 1000000
    requires before.h.arrived == [(256, DataEntry(0, payload, 0))] && before.h.pulled == [] && before.h.held == map[]
    requires before.h.pos == 0 && before.h.size == QUEUE_SIZE && before.tick == 1
    ensures m == After(before, Arrive(0, payload), c)
    ensures m.h.arrived == [(256, DataEntry(0, payload, 0)), (0, DataEntry(1, payload, 1000000))]
    ensures m.h.pulled == [(0, DataEntry(1, payload, 1000000))] && m.h.held == map[]
    ensures m.h.pos == 1 && m.h.size == QUEUE_SIZE && m.tick == 2
  {
    hide History.Faithful, Jittered;
    var h := Admitted(before.h, 0, DataEntry(1, payload, 1000000));
    assert h.held - {0} == map[];
    var thresholdUs := Threshold(Jittered(before.jitter, 1000000).us, c.maxThresholdUs);
    assert Drain(Pulled(h), c.clock, 2, thresholdUs) == (Pulled(h), 2);
    assert Drain(h, c.clock, 2, thresholdUs) == (Pulled(h), 2);
    m := After(before, Arrive(0, payload), c);
  }

  lemma GapSkipped(payload: seq<int>, c: Setting, before: Moment)
    requires |payload| >= 9 && c.maxThresholdUs == 20000 && (forall t: nat :: c.clock(t) == t * 1000000)
    requires before.h.arrived == [(256, DataEntry(0, payload, 0)), (0, DataEntry(1, payload, 1000000))]
    requires before.h.pulled == [(0, DataEntry(1, payload, 1000000))] && before.h.held == map[]
    requires before.h.pos == 1 && before.h.size == QUEUE_SIZE && before.tick == 2
    ensures var h := After(before, Arrive(255, payload), c).h;
            && h.arrived == before.h.arrived + [(256, DataEntry(2, payload, 2000000))]
            && h.pulled == before.h.pulled + [(256, DataEntry(2, payload, 2000000))]
  {
    hide History.Faithful, Jittered;
    var e := DataEntry(2, payload, 2000000);
    var thresholdUs := Threshold(Jittered(before.jitter, 2000000).us, 20000);
    forall t | 3 <= t < 3 + 255 ensures Elapsed(c.clock(t), 2000000) > thresholdUs {
      assert c.clock(t) == t * 1000000;
    }
    DrainSkips(Admitted(before.h, 256, e), 256, e, c.clock, 3, thresholdUs);
  }
}
