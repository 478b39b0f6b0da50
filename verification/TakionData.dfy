/** The receiving half of Takion's reliable data channel: every arriving data packet is pushed into
    the reorder queue, which is then drained; a gap is skipped once the first packet behind it has
    waited longer than an adaptive threshold. */
module TakionData {
  import opened Basics
  import SeqNum
  import RQ = ReorderQueue

  const QUEUE_SIZE: nat := 256
  const U64: nat := 0x1_0000_0000_0000_0000
  const JITTER_MIN_THRESHOLD_US: nat := 2000
  const CADENCE_TARGET_US: nat := 1000000 / 30

  /** A received data packet; `id` is the identity of its allocation. */
  datatype DataEntry = DataEntry(id: nat, payload: seq<int>, arrivalUs: nat)

  datatype DataEvent = DataEvent(dataType: int, body: seq<int>)

  type Numbered = (int, DataEntry)

  predicate KnownType(t: int) {
    t == 0 || t == 7 || t == 9 || t == 11
  }

  /** The events the callback sees when these packets are pulled in this order. */
  function EventsOf(pulled: seq<Numbered>): seq<DataEvent> {
    if pulled == [] then []
    else EventsOf(pulled[..|pulled| - 1]) + EventOf(pulled[|pulled| - 1].1)
  }

  function EventOf(e: DataEntry): seq<DataEvent> {
    if |e.payload| >= 9 && KnownType(e.payload[8]) then [DataEvent(e.payload[8], e.payload[9..])] else []
  }

  /** The event tells the type and the rest of a payload. */
  predicate Tells(e: DataEvent, payload: seq<int>) {
    && Deliverable(payload) && e.dataType == payload[8] && |e.body| == |payload| - 9
    && forall i :: 0 <= i < |e.body| ==> e.body[i] == payload[9 + i]
  }

  /** Payloads of these types are handed on. */
  predicate Deliverable(payload: seq<int>) {
    |payload| >= 9 && (payload[8] == 0 || payload[8] == 7 || payload[8] == 9 || payload[8] == 11)
  }

  /** Event `k` tells packet `from[k]`, in order, and all packets to be handed on are told. */
  ghost predicate Matching(pulled: seq<Numbered>, events: seq<DataEvent>, from: seq<nat>) {
    && |from| == |events|
    && (forall k :: 0 <= k < |from| ==> from[k] < |pulled| && Tells(events[k], pulled[from[k]].1.payload))
    && (forall i, k :: 0 <= i < k < |from| ==> from[i] < from[k])
    && (forall j: nat :: j < |pulled| && Deliverable(pulled[j].1.payload) ==> j in from)
  }

  ghost predicate Delivered(pulled: seq<Numbered>, events: seq<DataEvent>) {
    exists from :: Matching(pulled, events, from)
  }

  lemma {:induction false} EventsMatch(pulled: seq<Numbered>)
    ensures Delivered(pulled, EventsOf(pulled))
  {
    if pulled == [] {
      assert Matching(pulled, EventsOf(pulled), []);
    } else {
      hide *;
      EventsMatch(pulled[..|pulled| - 1]);
      EventsMatchMore(pulled[..|pulled| - 1], pulled[|pulled| - 1]);
      Rejoin(pulled);
    }
  }

  lemma EventsMatchMore(pulled: seq<Numbered>, p: Numbered)
    requires Delivered(pulled, EventsOf(pulled))
    ensures Delivered(pulled + [p], EventsOf(pulled + [p]))
  {
    hide Matching, EventOf, EventsOf;
    EventsMore(pulled, p);
    var from :| Matching(pulled, EventsOf(pulled), from);
    MatchingMore(pulled, EventsOf(pulled), from, p);
  }

  lemma MatchingMore(pulled: seq<Numbered>, events: seq<DataEvent>, from: seq<nat>, p: Numbered)
    requires Matching(pulled, events, from)
    ensures Delivered(pulled + [p], events + EventOf(p.1))
  {
    if Deliverable(p.1.payload) {
      assert Tells(EventOf(p.1)[0], p.1.payload);
      assert Matching(pulled + [p], events + EventOf(p.1), from + [|pulled|]);
    } else {
      assert events + [] == events;
      assert Matching(pulled + [p], events, from);
    }
  }

  lemma {:induction false} EventsJoin(ps: seq<Numbered>, qs: seq<Numbered>)
    ensures EventsOf(ps + qs) == EventsOf(ps) + EventsOf(qs)
  {
    if qs == [] {
      assert ps + qs == ps;
    } else {
      hide *;
      EventsJoin(ps, qs[..|qs| - 1]);
      EventsJoinMore(ps, qs[..|qs| - 1], qs[|qs| - 1]);
      Rejoin(qs);
    }
  }

  lemma Rejoin<T>(s: seq<T>)
    requires s != []
    ensures s[..|s| - 1] + [s[|s| - 1]] == s
  {
  }

  lemma EventsJoinMore(ps: seq<Numbered>, qs: seq<Numbered>, p: Numbered)
    requires EventsOf(ps + qs) == EventsOf(ps) + EventsOf(qs)
    ensures EventsOf(ps + (qs + [p])) == EventsOf(ps) + EventsOf(qs + [p])
  {
    hide *;
    EventsMore(qs, p);
    EventsMore(ps + qs, p);
    Associate(ps, qs, [p]);
    Associate(EventsOf(ps), EventsOf(qs), EventOf(p.1));
  }

  lemma Associate<T>(a: seq<T>, b: seq<T>, c: seq<T>)
    ensures (a + b) + c == a + (b + c)
  {
  }

  lemma EventsMore(ps: seq<Numbered>, p: Numbered)
    ensures EventsOf(ps + [p]) == EventsOf(ps) + EventOf(p.1)
  {
    hide EventOf;
    assert (ps + [p])[..|ps|] == ps;
  }

  lemma SamePrefix(a: seq<DataEvent>, b: seq<DataEvent>, c: seq<DataEvent>)
    requires a + b == a + c
    ensures b == c
  {
    assert b == (a + b)[|a|..] && c == (a + c)[|a|..];
  }

  /** What a drain delivers are the packets it has pulled. */
  lemma NewDelivered(h: Run, h': Run, events: seq<DataEvent>, ack: Option<int>, modulus: nat)
    requires Progress(h, h', events, ack, modulus)
    ensures Delivered(h'.pulled[|h.pulled|..], events)
  {
    hide History.Faithful, EventsOf, Delivered;
    var more := h'.pulled[|h.pulled|..];
    assert h'.pulled == h.pulled + more;
    EventsJoin(h.pulled, more);
    SamePrefix(EventsOf(h.pulled), events, EventsOf(more));
    EventsMatch(more);
  }

  /** 2.5 times the jitter estimate, clamped. */
  function Threshold(jitterUs: nat, maxThresholdUs: nat): nat {
    Min(Max((jitterUs * 5) % U64 / 2, JITTER_MIN_THRESHOLD_US), maxThresholdUs)
  }

  /** The clamp by cases, as long as the product does not wrap: the lower bound, the upper bound, and in between two and
      a half times the estimate, rounded down. */
  lemma ThresholdIs(jitterUs: nat, maxThresholdUs: nat)
    requires 5 * jitterUs < 0x1_0000_0000_0000_0000
    ensures maxThresholdUs <= 2000 ==> Threshold(jitterUs, maxThresholdUs) == maxThresholdUs
    ensures jitterUs <= 800 && maxThresholdUs >= 2000 ==> Threshold(jitterUs, maxThresholdUs) == 2000
    ensures 5 * jitterUs >= 2 * maxThresholdUs ==> Threshold(jitterUs, maxThresholdUs) == maxThresholdUs
    ensures 800 <= jitterUs && 5 * jitterUs <= 2 * maxThresholdUs ==>
              2 * Threshold(jitterUs, maxThresholdUs) <= 5 * jitterUs <= 2 * Threshold(jitterUs, maxThresholdUs) + 1
  {
  }

  /** 64 bit clock difference. */
  function Elapsed(now: nat, before: nat): nat {
    (now - before) % U64
  }

  function Distance(a: nat, b: nat): nat {
    if a > b then a - b else b - a
  }

  /** What has become of the packets of a run so far. */
  datatype History = History(
    arrived: seq<Numbered>,       // every packet pushed, `id` being its index
    ahead: seq<int>,              // how far past the head of the window each was on arrival
    pulled: seq<Numbered>,        // handed on, in order
    dropped: seq<Numbered>,       // passed to the drop callback, in order
    removed: set<int>,            // numbers under which a packet held was removed for a bad MAC
    held: map<int, DataEntry>,    // still in the queue
    pos: int,                     // the next number to be pulled
    size: nat)                    // the span of the window
  {
    ghost predicate Faithful() {
      |ahead| == |arrived| && Accounted() && HeldFirst(held) && PulledFirst() && PulledInOrder() && Settled()
    }

    /** Every arrival was pulled, or dropped, or is held: exactly one of these, exactly once. */
    ghost predicate Accounted() {
      multiset(arrived) == multiset(pulled) + multiset(dropped) + multiset(held.Items)
    }

    /** Arrival `j` may have been dropped although its number was still wanted: it was beyond the far
        end of the window, or a packet with its number was removed for a bad MAC. */
    ghost predicate Lost(j: nat)
      requires j < |arrived| && |ahead| == |arrived|
    {
      ahead[j] >= size || arrived[j].0 in removed
    }

    /** Packet `e` is the first arrival numbered `n` that was not lost. */
    ghost predicate FirstKept(n: int, e: DataEntry) {
      && |ahead| == |arrived|
      && e.id < |arrived| && arrived[e.id] == (n, e)
      && forall j :: 0 <= j < e.id && arrived[j].0 == n ==> Lost(j)
    }

    ghost predicate HeldFirst(m: map<int, DataEntry>) {
      forall n :: n in m ==> pos <= n && FirstKept(n, m[n])
    }

    ghost predicate PulledFirst() {
      forall i :: 0 <= i < |pulled| ==> FirstKept(pulled[i].0, pulled[i].1)
    }

    ghost predicate PulledInOrder() {
      && (forall i :: 0 <= i < |pulled| ==> pulled[i].0 < pos)
      && (forall i, j :: 0 <= i < j < |pulled| ==> pulled[i].0 < pulled[j].0)
    }

    /** The number of an arrival that was not lost is held or already passed. */
    ghost predicate Settled()
      requires |ahead| == |arrived|
    {
      forall j :: 0 <= j < |arrived| && !Lost(j) ==> arrived[j].0 < pos || arrived[j].0 in held
    }

    /** The head is pulled. */
    ghost function Pull(): History
      requires pos in held
    {
      this.(pulled := pulled + [(pos, held[pos])], held := held - {pos}, pos := pos + 1)
    }

    /** A new packet is let in. */
    ghost function Admit(n: int, e: DataEntry): History {
      this.(arrived := arrived + [(n, e)], ahead := ahead + [n - pos], held := held[n := e])
    }

    /** A packet is turned away on arrival: it comes too late, twice, or from beyond the window. */
    ghost function TurnAway(n: int, e: DataEntry): History {
      this.(arrived := arrived + [(n, e)], ahead := ahead + [n - pos], dropped := dropped + [(n, e)])
    }

    /** A held packet is removed. */
    ghost function Remove(n: int): History
      requires n in held
    {
      this.(dropped := dropped + [(n, held[n])], removed := removed + {n}, held := held - {n})
    }
  }

  /** The histories of actual runs. */
  type Run = h: History | h.Faithful() witness History([], [], [], [], {}, map[], 0, QUEUE_SIZE)

  ghost function Pulled(h: Run): Run
    requires h.pos in h.held
  {
    PullAccounted(h);
    PullKeepsFirst(h);
    h.Pull()
  }

  ghost function Skipped(h: Run): Run
    requires h.pos !in h.held
  {
    h.(pos := h.pos + 1)
  }

  ghost function Admitted(h: Run, n: int, e: DataEntry): Run
    requires n >= h.pos && n !in h.held && e.id == |h.arrived|
  {
    AdmitAccounted(h, n, e);
    AdmitKeepsFirst(h, n, e);
    h.Admit(n, e)
  }

  ghost function TurnedAway(h: Run, n: int, e: DataEntry): Run
    requires e.id == |h.arrived| && (n >= h.pos + h.size || n < h.pos || n in h.held)
  {
    TurnAwayAccounted(h, n, e);
    TurnAwayKeepsFirst(h, n, e);
    h.TurnAway(n, e)
  }

  ghost function Removed(h: Run, n: int): Run
    requires n in h.held
  {
    RemoveAccounted(h, n);
    RemoveKeepsFirst(h, n);
    h.Remove(n)
  }

  lemma RemovedIs(h: Run, n: int)
    requires n in h.held
    ensures var h' := Removed(h, n);
            && h'.held == h.held - {n} && h'.dropped == h.dropped + [(n, h.held[n])]
            && h'.pos == h.pos && h'.size == h.size
  {
    hide History.Faithful;
  }

  lemma PullAccounted(h: Run)
    requires h.pos in h.held
    ensures h.Pull().Accounted()
  {
    ItemsRemove(h.held, h.Pull().held, h.pos);
  }

  lemma AdmitAccounted(h: Run, n: int, e: DataEntry)
    requires n !in h.held
    ensures h.Admit(n, e).Accounted()
  {
    hide History.HeldFirst, History.PulledFirst, History.PulledInOrder, History.Settled;
    assert h.held == h.held[n := e] - {n};
    ItemsRemove(h.held[n := e], h.held, n);
  }

  lemma TurnAwayAccounted(h: Run, n: int, e: DataEntry)
    ensures h.TurnAway(n, e).Accounted()
  {}

  lemma RemoveAccounted(h: Run, n: int)
    requires n in h.held
    ensures h.Remove(n).Accounted()
  {
    ItemsRemove(h.held, h.held - {n}, n);
  }

  lemma PullKeepsFirst(h: Run)
    requires h.pos in h.held
    ensures var h' := h.Pull(); h'.HeldFirst(h'.held) && h'.PulledFirst() && h'.PulledInOrder() && h'.Settled()
  {
    FirstStays(h, h.Pull());
  }

  lemma AdmitKeepsFirst(h: Run, n: int, e: DataEntry)
    requires n >= h.pos && n !in h.held && e.id == |h.arrived|
    ensures var h' := h.Admit(n, e); h'.HeldFirst(h'.held) && h'.PulledFirst() && h'.PulledInOrder() && h'.Settled()
  {
    FirstStays(h, h.Admit(n, e));
  }

  lemma TurnAwayKeepsFirst(h: Run, n: int, e: DataEntry)
    requires n >= h.pos + h.size || n < h.pos || n in h.held
    ensures var h' := h.TurnAway(n, e); h'.HeldFirst(h'.held) && h'.PulledFirst() && h'.PulledInOrder() && h'.Settled()
  {
    FirstStays(h, h.TurnAway(n, e));
  }

  lemma RemoveKeepsFirst(h: Run, n: int)
    requires n in h.held
    ensures var h' := h.Remove(n); h'.HeldFirst(h'.held) && h'.PulledFirst() && h'.PulledInOrder() && h'.Settled()
  {
    FirstStays(h, h.Remove(n));
  }

  /** A packet pulled is the first arrival of its number, unless an earlier one was lost: it came from beyond the
      far end of the window, or a packet of that number was removed for a bad MAC. */
  lemma FirstArrivalPulled(h: Run, i: nat)
    requires i < |h.pulled|
    ensures var (n, e) := h.pulled[i];
            && h.FirstKept(n, e)
            && ((forall j :: 0 <= j < e.id ==> h.arrived[j].0 != n)
                <==> (forall j :: 0 <= j < e.id && h.arrived[j].0 == n ==> !h.Lost(j)))
  {
    var (n, e) := h.pulled[i];
    assert h.FirstKept(n, e);
    if j :| 0 <= j < e.id && h.arrived[j].0 == n {
      assert h.Lost(j);
    }
  }

  /** All of the missing numbers below `n` are skipped. */
  ghost function SkippedTo(h: Run, n: int): (h': Run)
    requires forall k :: h.pos <= k < n ==> k !in h.held
    ensures h' == if n <= h.pos then h else h.(pos := n)
    decreases n - h.pos
  {
    if n <= h.pos then h else SkippedTo(Skipped(h), n)
  }

  ghost function EmptyRun(pos: int): (h: Run)
    ensures h == History([], [], [], [], {}, map[], pos, QUEUE_SIZE)
  {
    History([], [], [], [], {}, map[], pos, QUEUE_SIZE)
  }

  /** Later arrivals and further losses do not change who was first. */
  lemma FirstKeptStays(h: Run, h': History)
    requires h.arrived <= h'.arrived && h.ahead <= h'.ahead && |h'.ahead| == |h'.arrived|
    requires h.removed <= h'.removed && h.pos <= h'.pos && h.size == h'.size
    ensures forall n, e :: h.FirstKept(n, e) ==> h'.FirstKept(n, e)
  {}

  lemma FirstStays(h: Run, h': History)
    requires h.arrived <= h'.arrived && h.ahead <= h'.ahead && |h'.ahead| == |h'.arrived|
    requires h.removed <= h'.removed && h.pos <= h'.pos && h.size == h'.size
    ensures forall n :: n in h.held ==> h'.FirstKept(n, h.held[n])
    ensures forall i :: 0 <= i < |h.pulled| ==> h'.FirstKept(h.pulled[i].0, h.pulled[i].1)
  {
    FirstKeptStays(h, h');
  }

  lemma ItemsRemove(held: map<int, DataEntry>, rest: map<int, DataEntry>, n: int)
    requires n in held && rest == held - {n}
    ensures multiset(held.Items) == multiset(rest.Items) + multiset{(n, held[n])}
  {
    forall p: Numbered ensures p in held.Items <==> p in rest.Items + {(n, held[n])} {
      assert p in held.Items <==> p.0 in held && held[p.0] == p.1;
      assert p in rest.Items <==> p.0 in rest && rest[p.0] == p.1;
    }
    assert held.Items == rest.Items + {(n, held[n])};
    assert (n, held[n]) !in rest.Items;
  }

  /** The acknowledgements sent: each names a pulled packet, a later one than the one before, and the
      last one names the last packet pulled. */
  ghost predicate Acknowledged(acks: seq<int>, ackNums: seq<int>, pulled: seq<Numbered>) {
    && |acks| == |ackNums|
    && (forall i :: 0 <= i < |acks| ==> acks[i] == ackNums[i] % SeqNum.MOD32)
    && (forall i, j :: 0 <= i < j < |ackNums| ==> ackNums[i] < ackNums[j])
    && (forall i :: 0 <= i < |ackNums| ==> HasNumber(pulled, ackNums[i]))
    && if pulled == [] then ackNums == []
       else ackNums != [] && ackNums[|ackNums| - 1] == pulled[|pulled| - 1].0
  }

  ghost predicate HasNumber(ps: seq<Numbered>, n: int) {
    exists j :: 0 <= j < |ps| && ps[j].0 == n
  }

  ghost function AckNumsAfter(ackNums: seq<int>, h: Run, h': Run): seq<int> {
    if |h'.pulled| <= |h.pulled| then ackNums else ackNums + [h'.pulled[|h'.pulled| - 1].0]
  }

  lemma AcknowledgedStep(acks: seq<int>, ackNums: seq<int>, h: Run, h': Run, events: seq<DataEvent>, ack: Option<int>)
    requires Acknowledged(acks, ackNums, h.pulled) && Progress(h, h', events, ack, SeqNum.MOD32)
    ensures Acknowledged(if ack.Some? then acks + [ack.value] else acks, AckNumsAfter(ackNums, h, h'), h'.pulled)
  {
    hide History.Faithful;
    if |h'.pulled| == |h.pulled| {
      assert h'.pulled == h.pulled;
    } else {
      InPullOrder(h');
      AcknowledgedMore(acks, ackNums, h.pulled, h'.pulled);
    }
  }

  lemma InPullOrder(h: Run)
    ensures forall i, j :: 0 <= i < j < |h.pulled| ==> h.pulled[i].0 < h.pulled[j].0
  {
    assert h.PulledInOrder();
  }

  lemma AcknowledgedMore(acks: seq<int>, ackNums: seq<int>, ps: seq<Numbered>, qs: seq<Numbered>)
    requires Acknowledged(acks, ackNums, ps) && ps <= qs && |ps| < |qs|
    requires forall i, j :: 0 <= i < j < |qs| ==> qs[i].0 < qs[j].0
    ensures Acknowledged(acks + [qs[|qs| - 1].0 % SeqNum.MOD32], ackNums + [qs[|qs| - 1].0], qs)
  {
    HasNumberStays(ps, qs);
    assert HasNumber(qs, qs[|qs| - 1].0);
    if ps != [] {
      assert qs[|ps| - 1] == ps[|ps| - 1];
      assert forall i :: 0 <= i < |ackNums| ==> ackNums[i] <= ackNums[|ackNums| - 1];
    }
  }

  lemma HasNumberStays(ps: seq<Numbered>, qs: seq<Numbered>)
    requires ps <= qs
    ensures forall n :: HasNumber(ps, n) ==> HasNumber(qs, n)
  {
    forall n | HasNumber(ps, n) ensures HasNumber(qs, n) {
      var j :| 0 <= j < |ps| && ps[j].0 == n;
      assert qs[j] == ps[j];
    }
  }

  ghost predicate NothingHeld(held: map<int, DataEntry>) {
    forall n :: n !in held
  }

  lemma {:induction false} LeastExists(held: map<int, DataEntry>)
    requires !NothingHeld(held)
    ensures exists n :: RQ.LeastOf(held, n)
    decreases |held|
  {
    var m :| m in held;
    var rest := held - {m};
    assert forall k :: k in held && k != m ==> k in rest;
    if NothingHeld(rest) {
      assert RQ.LeastOf(held, m);
    } else {
      assert rest.Keys == held.Keys - {m};
      LeastExists(rest);
      var n :| RQ.LeastOf(rest, n);
      assert RQ.LeastOf(held, if n < m then n else m);
    }
  }

  /** The first packet held. */
  ghost function FirstHeld(held: map<int, DataEntry>): (n: int)
    requires !NothingHeld(held)
    ensures RQ.LeastOf(held, n)
  {
    LeastExists(held);
    var n :| RQ.LeastOf(held, n);
    n
  }

  /**
   * A drain: packets are pulled as long as the next one is there; a missing one is skipped if the first packet behind
   * the gap has waited longer than the threshold by then, else the drain ends. The clock is read once for each gap.
   */
  ghost function Drain(h: Run, clock: nat -> nat, tick: nat, thresholdUs: nat): (Run, nat)
    decreases |h.held|, if NothingHeld(h.held) then 0 else FirstHeld(h.held) - h.pos
  {
    if h.pos in h.held then
      assert (h.held - {h.pos}).Keys == h.held.Keys - {h.pos};
      Drain(Pulled(h), clock, tick, thresholdUs)
    else if NothingHeld(h.held) then (h, tick)
    else if Elapsed(clock(tick), h.held[FirstHeld(h.held)].arrivalUs) > thresholdUs then
      assert h.HeldFirst(h.held);
      Drain(Skipped(h), clock, tick + 1, thresholdUs)
    else (h, tick + 1)
  }

  lemma DrainAtGap(h: Run, clock: nat -> nat, tick: nat, thresholdUs: nat)
    requires h.pos !in h.held
    ensures Drain(h, clock, tick, thresholdUs)
         == if NothingHeld(h.held) then (h, tick)
            else if Elapsed(clock(tick), h.held[FirstHeld(h.held)].arrivalUs) > thresholdUs
            then Drain(Skipped(h), clock, tick + 1, thresholdUs)
            else (h, tick + 1)
  {
  }

  /** A drain that skips the whole gap before the only packet held, as the clock always shows it to be old enough. */
  lemma {:induction false} DrainSkips(h: Run, n: int, e: DataEntry, clock: nat -> nat, tick: nat, thresholdUs: nat)
    requires h.held == map[n := e] && h.pos <= n
    requires forall t :: tick <= t < tick + (n - h.pos) ==> Elapsed(clock(t), e.arrivalUs) > thresholdUs
    ensures Drain(h, clock, tick, thresholdUs) == (Pulled(SkippedTo(h, n)), tick + (n - h.pos))
    decreases n - h.pos
  {
    hide History.Faithful;
    if h.pos == n {
      assert Pulled(h).held == map[];
    } else {
      assert n in h.held && FirstHeld(h.held) == n;
      DrainSkips(Skipped(h), n, e, clock, tick + 1, thresholdUs);
    }
  }

  /**
   * What a drain comes to. Of the packets held those below the new head are handed on, and the others stay as they
   * are. A missing number is stepped over only when the clock has shown that the first packet behind it is older than
   * the threshold, and the drain stops before a packet only when the clock has just shown that it is not.
   */
  ghost predicate DrainedBy(h: History, h': History, clock: nat -> nat, tick: nat, tick': nat, thresholdUs: nat) {
    && tick <= tick' && h.pos <= h'.pos && h'.pos !in h'.held
    && LeftHeld(h, h') && HandedOn(h, h') && SameArrivals(h, h')
    && (forall n :: h.pos <= n < h'.pos && n !in h.held ==> SteppedOver(h, n, clock, tick, tick', thresholdUs))
    && (NothingHeld(h'.held) || (tick < tick' && StillYoung(h', clock(tick' - 1), thresholdUs)))
  }

  ghost predicate LeftHeld(h: History, h': History) {
    forall n :: (n in h'.held <==> n in h.held && n >= h'.pos) && (n in h'.held ==> h'.held[n] == h.held[n])
  }

  ghost predicate SameArrivals(h: History, h': History) {
    && h'.arrived == h.arrived && h'.ahead == h.ahead && h'.dropped == h.dropped
    && h'.removed == h.removed && h'.size == h.size
  }

  ghost predicate HandedOn(h: History, h': History) {
    && h.pulled <= h'.pulled
    && (forall i :: |h.pulled| <= i < |h'.pulled| ==>
          h.pos <= h'.pulled[i].0 < h'.pos && h'.pulled[i].0 in h.held && h.held[h'.pulled[i].0] == h'.pulled[i].1)
    && (forall i, j :: |h.pulled| <= i < j < |h'.pulled| ==> h'.pulled[i].0 < h'.pulled[j].0)
    && (forall n :: h.pos <= n < h'.pos && n in h.held ==> HasNumber(h'.pulled[|h.pulled|..], n))
  }

  ghost predicate SteppedOver(h: History, n: int, clock: nat -> nat, tick: nat, tick': nat, thresholdUs: nat) {
    exists t: nat, m :: tick <= t < tick' && NextHeld(h, n, m) && Age(clock(t), h.held[m]) > thresholdUs
  }

  ghost predicate NextHeld(h: History, n: int, m: int) {
    n < m && m in h.held && forall k :: k in h.held && k > n ==> k >= m
  }

  ghost predicate StillYoung(h: History, now: nat, thresholdUs: nat) {
    exists m :: NextHeld(h, h.pos, m) && Age(now, h.held[m]) <= thresholdUs
  }

  /** The time since a packet's arrival, as 64 bit clocks show it. */
  function Age(now: nat, e: DataEntry): nat {
    (now - e.arrivalUs) % 0x1_0000_0000_0000_0000
  }

  lemma AgeIs(now: nat, e: DataEntry)
    requires 0 <= now - e.arrivalUs < 0x1_0000_0000_0000_0000
    ensures Age(now, e) == now - e.arrivalUs
  {
  }

  lemma {:induction false} DrainIs(h: Run, clock: nat -> nat, tick: nat, thresholdUs: nat)
    ensures var (h', tick') := Drain(h, clock, tick, thresholdUs); DrainedBy(h, h', clock, tick, tick', thresholdUs)
    decreases |h.held|, if NothingHeld(h.held) then 0 else FirstHeld(h.held) - h.pos
  {
    hide History.Faithful, DrainedBy;
    AllHeldAhead(h);
    if h.pos in h.held {
      var (h', tick') := Drain(Pulled(h), clock, tick, thresholdUs);
      assert (h.held - {h.pos}).Keys == h.held.Keys - {h.pos};
      DrainIs(Pulled(h), clock, tick, thresholdUs);
      PullFirst(h, h', clock, tick, tick', thresholdUs);
    } else if NothingHeld(h.held) {
      DrainStops(h, clock, tick, tick, thresholdUs);
    } else if Elapsed(clock(tick), h.held[FirstHeld(h.held)].arrivalUs) > thresholdUs {
      var (h', tick') := Drain(Skipped(h), clock, tick + 1, thresholdUs);
      DrainIs(Skipped(h), clock, tick + 1, thresholdUs);
      SkipFirst(h, FirstHeld(h.held), h', clock, tick, tick', thresholdUs);
    } else {
      assert NextHeld(h, h.pos, FirstHeld(h.held));
      DrainStops(h, clock, tick, tick + 1, thresholdUs);
    }
  }

  lemma DrainStops(h: Run, clock: nat -> nat, tick: nat, tick': nat, thresholdUs: nat)
    requires h.pos !in h.held && tick <= tick' && NoneBelow(h.held, h.pos)
    requires NothingHeld(h.held) || (tick < tick' && StillYoung(h, clock(tick' - 1), thresholdUs))
    ensures DrainedBy(h, h, clock, tick, tick', thresholdUs)
  {
  }

  lemma PullFirst(h: Run, h': Run, clock: nat -> nat, tick: nat, tick': nat, thresholdUs: nat)
    requires h.pos in h.held && NoneBelow(h.held, h.pos)
    requires DrainedBy(Pulled(h), h', clock, tick, tick', thresholdUs)
    ensures DrainedBy(h, h', clock, tick, tick', thresholdUs)
  {
    hide History.Faithful;
    hide SteppedOver, HandedOn, StillYoung, NothingHeld;
    var p := Pulled(h);
    PullHandsOn(h, h');
    forall n | h.pos <= n < h'.pos && n !in h.held ensures SteppedOver(h, n, clock, tick, tick', thresholdUs) {
      SteppedStays(h, p, n, clock, tick, tick, tick', thresholdUs);
    }
  }

  lemma SteppedStays(h: History, p: History, n: int, clock: nat -> nat, tick: nat, tick1: nat, tick': nat,
                     thresholdUs: nat)
    requires tick <= tick1 && SteppedOver(p, n, clock, tick1, tick', thresholdUs)
    requires forall k :: k > n ==> (k in h.held <==> k in p.held) && (k in h.held ==> h.held[k] == p.held[k])
    ensures SteppedOver(h, n, clock, tick, tick', thresholdUs)
  {
    var t: nat, m :| tick1 <= t < tick' && NextHeld(p, n, m) && Age(clock(t), p.held[m]) > thresholdUs;
    assert NextHeld(h, n, m);
  }

  lemma PullHandsOn(h: Run, h': Run)
    requires h.pos in h.held && HandedOn(Pulled(h), h') && h.pos < h'.pos
    ensures HandedOn(h, h')
  {
    hide History.Faithful;
    var p, k := Pulled(h), |h.pulled|;
    assert p.pulled == h.pulled + [(h.pos, h.held[h.pos])];
    assert h'.pulled[k] == p.pulled[k];
    forall n | h.pos <= n < h'.pos && n in h.held ensures HasNumber(h'.pulled[k..], n) {
      if n == h.pos {
        assert h'.pulled[k..][0].0 == n;
      } else {
        assert HasNumber(h'.pulled[k + 1..], n);
        var j :| 0 <= j < |h'.pulled[k + 1..]| && h'.pulled[k + 1..][j].0 == n;
        assert h'.pulled[k..][j + 1].0 == n;
      }
    }
  }

  lemma SkipFirst(h: Run, m: int, h': Run, clock: nat -> nat, tick: nat, tick': nat, thresholdUs: nat)
    requires h.pos !in h.held && NoneBelow(h.held, h.pos) && RQ.LeastOf(h.held, m)
    requires Elapsed(clock(tick), h.held[m].arrivalUs) > thresholdUs
    requires DrainedBy(Skipped(h), h', clock, tick + 1, tick', thresholdUs)
    ensures DrainedBy(h, h', clock, tick, tick', thresholdUs)
  {
    hide History.Faithful, HasNumber, SteppedOver, NothingHeld, StillYoung;
    var s := Skipped(h);
    forall n | h.pos <= n < h'.pos && n !in h.held ensures SteppedOver(h, n, clock, tick, tick', thresholdUs) {
      if n == h.pos {
        StepsOver(h, m, clock, tick, tick', thresholdUs);
      } else {
        SteppedStays(h, s, n, clock, tick, tick + 1, tick', thresholdUs);
      }
    }
  }

  lemma StepsOver(h: Run, m: int, clock: nat -> nat, tick: nat, tick': nat, thresholdUs: nat)
    requires tick < tick' && h.pos !in h.held && NoneBelow(h.held, h.pos) && RQ.LeastOf(h.held, m)
    requires Elapsed(clock(tick), h.held[m].arrivalUs) > thresholdUs
    ensures SteppedOver(h, h.pos, clock, tick, tick', thresholdUs)
  {
    hide History.Faithful;
    assert NextHeld(h, h.pos, m) && Age(clock(tick), h.held[m]) > thresholdUs;
  }

  /** The estimate of the jitter, and the times it is computed from. */
  datatype Jitter = Jitter(us: nat, lastArrivalUs: nat, lastInterUs: nat)

  /** The estimate once another packet has arrived: the smoothed change of the time between packets. A time of zero
      stands for none. */
  function Jittered(j: Jitter, now: nat): Jitter {
    if j.lastArrivalUs == 0 then Jitter(j.us, now, 0)
    else
      var inter := Elapsed(now, j.lastArrivalUs);
      Jitter(if j.lastInterUs == 0 then j.us else (7 * j.us + Distance(inter, j.lastInterUs)) % U64 / 8, now, inter)
  }

  /** The estimate after packets that arrived at these times. */
  function EstimateOf(times: seq<nat>): Jitter {
    if times == [] then Jitter(0, 0, 0)
    else Jittered(EstimateOf(times[..|times| - 1]), times[|times| - 1])
  }

  /** How much the time between packets has changed with packet `i`. */
  function Change(times: seq<nat>, i: nat): nat
    requires 2 <= i < |times|
  {
    Distance(Elapsed(times[i], times[i - 1]), Elapsed(times[i - 1], times[i - 2]))
  }

  /** With a clock that does not run backwards or wrap: the difference of the two times between packets, either way. */
  lemma ChangeIs(times: seq<nat>, i: nat)
    requires 2 <= i < |times| && times[i - 2] <= times[i - 1] <= times[i] < 0x1_0000_0000_0000_0000
    ensures var change: int := (times[i] - times[i - 1]) as int - (times[i - 1] - times[i - 2]);
            Change(times, i) == if change < 0 then 0 - change else change
  {
  }

  /** No change has been greater than the bound. */
  ghost predicate Steady(times: seq<nat>, bound: nat) {
    forall i :: 2 <= i < |times| ==> Change(times, i) <= bound
  }

  /** The estimate never exceeds the greatest change so far, unless that is so great that the sum wraps. */
  lemma {:induction false} EstimateBounded(times: seq<nat>, bound: nat)
    requires Steady(times, bound) && 8 * bound < U64
    ensures EstimateOf(times).us <= bound
  {
    if times != [] {
      var n := |times| - 1;
      var before := times[..n];
      assert forall i :: 2 <= i < n ==> Change(before, i) == Change(times, i);
      EstimateBounded(before, bound);
      EstimateTimes(before);
      hide Jittered, Elapsed, Distance;
      if n >= 2 { assert Change(times, n) <= bound; }
      StaysBounded(EstimateOf(before), times[n], bound);
    }
  }

  lemma StaysBounded(j: Jitter, now: nat, bound: nat)
    requires j.us <= bound && 8 * bound < U64
    requires j.lastArrivalUs > 0 && j.lastInterUs > 0 ==>
               Distance(Elapsed(now, j.lastArrivalUs), j.lastInterUs) <= bound
    ensures Jittered(j, now).us <= bound
  {
  }

  /** The times that the estimate goes by. */
  lemma {:induction false} EstimateTimes(times: seq<nat>)
    ensures var j := EstimateOf(times);
            && j.lastArrivalUs == (if times == [] then 0 else times[|times| - 1])
            && (j.lastInterUs == 0
                || (|times| >= 2 && j.lastInterUs == Elapsed(times[|times| - 1], times[|times| - 2])))
  {
    if times != [] { EstimateTimes(times[..|times| - 1]); }
  }

  /** Each packet moves the estimate towards the change it brings: by an eighth of what is between them, rounded down.
      After a packet at time 0 it stays as it is. */
  lemma EstimateMoves(times: seq<nat>, now: nat)
    requires |times| >= 2 && EstimateOf(times).lastInterUs > 0
    requires 7 * EstimateOf(times).us + Change(times + [now], |times|) < U64
    ensures var us, us', change := EstimateOf(times).us, EstimateOf(times + [now]).us, Change(times + [now], |times|);
            && Min(us, change) <= us' <= Max(us, change)
            && if times[|times| - 1] == 0 then us' == us else 8 * us' <= 7 * us + change < 8 * us' + 8
  {
    hide Jittered, Elapsed, Distance;
    var all, j := times + [now], EstimateOf(times);
    assert all[..|times|] == times && all[|times| - 1] == times[|times| - 1] && all[|times| - 2] == times[|times| - 2];
    EstimateTimes(times);
    EstimateStep(j, now);
  }

  lemma EstimateStep(j: Jitter, now: nat)
    requires j.lastInterUs > 0
    requires 7 * j.us + Distance(Elapsed(now, j.lastArrivalUs), j.lastInterUs) < U64
    ensures j.lastArrivalUs > 0 ==>
              var us', change := Jittered(j, now).us, Distance(Elapsed(now, j.lastArrivalUs), j.lastInterUs);
              Min(j.us, change) <= us' <= Max(j.us, change) && 8 * us' <= 7 * j.us + change < 8 * us' + 8
    ensures j.lastArrivalUs == 0 ==> Jittered(j, now).us == j.us
  {
  }

  /** The packets held whose MAC is wrong are removed, those numbered `n` up to `end` one after the other. */
  ghost function Rechecked(h: Run, badMac: DataEntry -> bool, n: int, end: int): Run
    decreases end - n
  {
    if n >= end then h
    else Rechecked(if n in h.held && badMac(h.held[n]) then Removed(h, n) else h, badMac, n + 1, end)
  }

  lemma {:induction false} RecheckedNone(h: Run, badMac: DataEntry -> bool, n: int, end: int)
    requires forall k :: k in h.held ==> k < n
    ensures Rechecked(h, badMac, n, end) == h
    decreases end - n
  {
    if n < end { RecheckedNone(h, badMac, n + 1, end); }
  }

  /** The packets handed to the drop callback, leaving out the calls for an empty slot. */
  function PacketsIn(drops: seq<RQ.Drop<DataEntry>>): seq<RQ.Drop<DataEntry>> {
    if drops == [] then []
    else
      var d := drops[|drops| - 1];
      PacketsIn(drops[..|drops| - 1]) + if d.user.Some? then [d] else []
  }

  lemma PacketsInMore(drops: seq<RQ.Drop<DataEntry>>, d: RQ.Drop<DataEntry>)
    ensures PacketsIn(drops + [d]) == PacketsIn(drops) + if d.user.Some? then [d] else []
  {
    assert (drops + [d])[..|drops|] == drops;
  }

  /** The calls that hand over these packets. */
  function DropsOf(ps: seq<Numbered>, modulus: nat): seq<RQ.Drop<DataEntry>>
    requires modulus > 0
  {
    seq(|ps|, i requires 0 <= i < |ps| => RQ.Drop(ps[i].0 % modulus, Some(ps[i].1)))
  }

  lemma DropsOfMore(ps: seq<Numbered>, p: Numbered, modulus: nat)
    requires modulus > 0
    ensures DropsOf(ps + [p], modulus) == DropsOf(ps, modulus) + [RQ.Drop(p.0 % modulus, Some(p.1))]
  {
  }

  class DataReceiver {
    const queue: RQ.ReorderQueue<DataEntry>
    const maxThresholdUs: nat
    const clock: nat -> nat
    var ticks: nat
    var jitterUs: nat
    var cadenceJitterUs: nat
    var lastPacketArrivalUs: nat
    var lastInterArrivalUs: nat
    var gapsSkipped: nat
    var nextId: nat

    /** The calls of the drop callback so far. */
    var drops: seq<RQ.Drop<DataEntry>>

    /** The queue holds what the history says it holds. */
    ghost predicate Follows(h: Run)
      reads this, queue, queue.ring
    {
      queue.Valid() && queue.reduces && queue.size == h.size && queue.dropStrategy.DropEnd?
      && h.held == queue.items && h.pos == queue.pos
      && PacketsIn(drops) == DropsOf(h.dropped, queue.modulus)
    }

    /** While draining: the hint is exact or invalid. */
    ghost predicate HintUsable()
      reads this, queue
    {
      queue.HintExact() || queue.firstSetHint == None
    }

    /** Between packets: nothing can be pulled, and the hint points at the first packet held. */
    ghost predicate Idle(h: Run)
      reads this, queue, queue.ring
    {
      Follows(h) && queue.HintExact() && h.pos !in h.held
    }

    constructor (initialSeqNum: int, maxThresholdUs: nat, clock: nat -> nat)
      requires 0 <= initialSeqNum < SeqNum.MOD32
      ensures fresh(queue) && fresh(queue.ring)
      ensures queue.Valid() && queue.dropStrategy.DropEnd? && queue.HintExact() && queue.items == map[]
      ensures queue.modulus == SeqNum.MOD32 && queue.reduces && queue.size == QUEUE_SIZE && queue.pos == initialSeqNum
      ensures this.clock == clock && this.maxThresholdUs == maxThresholdUs && nextId == 0 && drops == []
      ensures ticks == 0 && Estimate() == Jitter(0, 0, 0)
    {
      queue := new RQ.ReorderQueue<DataEntry>(SeqNum.MOD32, true, QUEUE_SIZE, initialSeqNum);
      this.maxThresholdUs, this.clock := maxThresholdUs, clock;
      ticks, jitterUs, cadenceJitterUs, lastPacketArrivalUs, lastInterArrivalUs, gapsSkipped := 0, 0, 0, 0, 0, 0;
      nextId, drops := 0, [];
    }

    ghost function Estimate(): Jitter
      reads this`jitterUs, this`lastPacketArrivalUs, this`lastInterArrivalUs
    {
      Jitter(jitterUs, lastPacketArrivalUs, lastInterArrivalUs)
    }

    method Now() returns (now: nat)
      modifies this`ticks
      ensures now == clock(old(ticks)) && ticks == old(ticks) + 1
    {
      now := clock(ticks);
      ticks := ticks + 1;
    }

    /** Pulls the next packet, if it is there; the result is its sequence number and the events of its delivery. */
    method PullOne(ghost h: Run) returns (r: Option<(int, seq<DataEvent>)>, ghost h': Run)
      requires Follows(h) && HintUsable()
      modifies queue
      ensures Follows(h') && HintUsable()
      ensures h.pos in h.held ==>
                && h' == Pulled(h) && queue.count < old(queue.count)
                && r == Some((h.pos % queue.modulus, EventOf(h.held[h.pos])))
      ensures h.pos !in h.held ==>
                h' == h && r == None && queue.count == old(queue.count) && queue.firstSetHint == old(queue.firstSetHint)
    {
      hide History.Faithful, RQ.ReorderQueue.Valid, RQ.ReorderQueue.HintExact;
      var p := PullHead();
      if p.None? { return None, h; }
      h' := Pulled(h);
      r := Some((p.value.0, EventOf(p.value.1)));
    }

    /** A pull from a queue whose hint is exact or invalid leaves it so. */
    method PullHead() returns (p: Option<(int, DataEntry)>)
      requires queue.Valid() && queue.reduces && HintUsable()
      modifies queue
      ensures queue.Valid() && HintUsable() && queue.dropStrategy == old(queue.dropStrategy)
      ensures old(queue.pos in queue.items) ==>
                && p == Some((old(queue.pos) % queue.modulus, old(queue.items[queue.pos])))
                && queue.items == old(queue.items - {queue.pos}) && queue.pos == old(queue.pos) + 1
                && queue.count < old(queue.count)
      ensures old(queue.pos !in queue.items) ==>
                && p == None && queue.items == old(queue.items) && queue.pos == old(queue.pos)
                && queue.count == old(queue.count) && queue.firstSetHint == old(queue.firstSetHint)
    {
      queue.CountIsExtent();
      queue.FirstName();
      hide RQ.ReorderQueue.Valid;
      p := queue.Pull();
    }

    /** Whether the packet behind a gap at the head has waited longer than the threshold. */
    method GapExpired(ghost h: Run) returns (expired: bool)
      requires Follows(h) && HintUsable() && queue.count > 0
      modifies queue`firstSetHint, this`ticks
      ensures Follows(h) && queue.HintExact() && queue.count == old(queue.count)
      ensures !NothingHeld(h.held) && ticks == old(ticks) + 1
      ensures expired <==>
                Elapsed(clock(old(ticks)), h.held[FirstHeld(h.held)].arrivalUs) > Threshold(jitterUs, maxThresholdUs)
    {
      queue.CountIsExtent();
      hide History.Faithful, RQ.ReorderQueue.Valid, PacketsIn, DropsOf;
      ghost var start := queue.pos + queue.ScanStart();
      assert RQ.NoneBefore(h.held, start);
      var f := queue.FindFirstSet();
      var now := Now();
      expired := Elapsed(now, f.user.arrivalUs) > Threshold(jitterUs, maxThresholdUs);
      assert RQ.LeastOf(h.held, queue.pos + f.index);
      assert FirstHeld(h.held) == queue.pos + f.index;
    }

    /** Steps over a missing packet at the head; no packet is dropped by that. */
    method SkipMissing(ghost h: Run) returns (d: seq<RQ.Drop<DataEntry>>, ghost h': Run)
      requires Follows(h) && queue.HintExact() && queue.count > 0 && h.pos !in h.held
      modifies queue, queue.ring, this`gapsSkipped, this`drops
      ensures Follows(h') && HintUsable() && h' == Skipped(h) && queue.count < old(queue.count)
      ensures d == [RQ.Drop(h.pos % queue.modulus, None)] && gapsSkipped == old(gapsSkipped) + 1
    {
      hide History.Faithful, RQ.ReorderQueue.Valid, RQ.ReorderQueue.HintExact;
      gapsSkipped := gapsSkipped + 1;
      d := SkipHead();
      PacketsInMore(drops, d[0]);
      drops := drops + d;
      h' := Skipped(h);
    }

    /** A skip of the missing packet at the head of a queue whose hint is exact leaves it exact or invalid. */
    method SkipHead() returns (d: seq<RQ.Drop<DataEntry>>)
      requires queue.Valid() && queue.reduces && queue.HintExact() && queue.count > 0 && queue.pos !in queue.items
      modifies queue, queue.ring
      ensures queue.Valid() && HintUsable() && queue.dropStrategy == old(queue.dropStrategy)
      ensures queue.items == old(queue.items) && queue.pos == old(queue.pos) + 1 && queue.count < old(queue.count)
      ensures d == [RQ.Drop(old(queue.pos) % queue.modulus, None)]
    {
      queue.CountIsExtent();
      queue.FirstName();
      hide RQ.ReorderQueue.Valid;
      d := queue.SkipGap();
    }

    /** A push that never drops from the front keeps the hint exact. `d` is what goes to the drop callback. */
    method PushData(entry: DataEntry, seqNum: int, ghost a: int) returns (d: seq<RQ.Drop<DataEntry>>)
      requires queue.Valid() && queue.reduces && queue.dropStrategy.DropEnd? && queue.HintExact()
      requires queue.Near(a) && seqNum == a % queue.modulus
      modifies queue, queue.ring
      ensures queue.Valid() && queue.dropStrategy.DropEnd? && queue.HintExact() && queue.pos == old(queue.pos)
      ensures queue.items == if old(queue.Rejects(a)) then old(queue.items) else old(queue.items)[a := entry]
      ensures d == if old(queue.Rejects(a)) then [RQ.Drop(seqNum, Some(entry))] else []
    {
      queue.CountIsExtent();
      assert RQ.From(queue.items, queue.pos) == queue.items;
      RQ.LeastAfterPut(queue.items, a, entry,
                       if queue.firstSetHint.Some? then queue.pos + queue.firstSetHint.value else a);
      var r := queue.Push(seqNum, entry, a);
      d := r.value;
    }

    method PushEntry(entry: DataEntry, seqNum: int, ghost a: int, ghost h: Run)
      returns (d: seq<RQ.Drop<DataEntry>>, ghost h': Run)
      requires Follows(h) && queue.HintExact() && queue.Near(a) && seqNum == a % queue.modulus
      requires entry.id == |h.arrived|
      modifies queue, queue.ring, this`drops
      ensures Follows(h') && queue.HintExact() && h' == Arrival(h, a, entry)
      ensures if d == [] then h'.dropped == h.dropped
              else d == [RQ.Drop(seqNum, Some(entry))] && h'.dropped == h.dropped + [(a, entry)]
    {
      hide RQ.ReorderQueue.Valid, RQ.ReorderQueue.HintExact, History.Faithful, PacketsIn, DropsOf;
      d := PushData(entry, seqNum, a);
      PacketsInMore(drops, RQ.Drop(seqNum, Some(entry)));
      DropsOfMore(h.dropped, (a, entry), queue.modulus);
      drops := drops + d;
      h' := Arrival(h, a, entry);
      assert d == [] ==> drops == old(drops);
    }

    /** Takes in the payload of a data packet: numbers, stamps and pushes it, then drains the queue.
        The packet's true number is `delta` past the head of the window. */
    method HandleData(payload: seq<int>, seqNum: int, ghost a: int, ghost h: Run)
      returns (events: seq<DataEvent>, ack: Option<int>, ghost h': Run)
      requires Idle(h) && queue.Near(a) && seqNum == a % queue.modulus && nextId == |h.arrived|
      modifies this, queue, queue.ring
      ensures Idle(h') && nextId == |h'.arrived|
      ensures |payload| < 9 ==> h' == h && events == [] && ack == None
      ensures |payload| >= 9 ==>
                var e := DataEntry(|h.arrived|, payload, clock(old(ticks)));
                && Drained(Arrival(h, a, e), h', events, ack, queue.modulus)
                && (h', ticks) == Drain(Arrival(h, a, e), clock, old(ticks) + 1, Threshold(jitterUs, maxThresholdUs))
      ensures |payload| < 9 ==> ticks == old(ticks)
      ensures Estimate() == if |payload| < 9 then old(Estimate()) else Jittered(old(Estimate()), clock(old(ticks)))
    {
      hide History.Faithful, Jittered, Drained;
      if |payload| < 9 { return [], None, h; }
      var entry := Stamp(payload);
      events, ack, h' := TakeIn(entry, seqNum, a, h);
    }

    /** Records a packet with its arrival time, updating the jitter estimate. */
    method Stamp(payload: seq<int>) returns (entry: DataEntry)
      modifies this`ticks, this`nextId, this`jitterUs, this`cadenceJitterUs, this`lastPacketArrivalUs,
               this`lastInterArrivalUs
      ensures entry == DataEntry(old(nextId), payload, clock(old(ticks))) && nextId == old(nextId) + 1
      ensures ticks == old(ticks) + 1 && Estimate() == Jittered(old(Estimate()), clock(old(ticks)))
    {
      var now := Now();
      entry := DataEntry(nextId, payload, now);
      nextId := nextId + 1;
      UpdateJitter(now);
    }

    method TakeIn(entry: DataEntry, seqNum: int, ghost a: int, ghost h: Run)
      returns (events: seq<DataEvent>, ack: Option<int>, ghost h': Run)
      requires Idle(h) && queue.Near(a) && seqNum == a % queue.modulus && entry.id == |h.arrived|
      modifies queue, queue.ring, this`ticks, this`gapsSkipped, this`drops
      ensures Idle(h') && Drained(Arrival(h, a, entry), h', events, ack, queue.modulus)
      ensures (h', ticks) == Drain(Arrival(h, a, entry), clock, old(ticks), Threshold(jitterUs, maxThresholdUs))
    {
      var d;
      d, h' := PushEntry(entry, seqNum, a, h);
      events, ack, h' := FlushDataQueue(h');
    }

    /** The smoothed variation of the time between packets. */
    method UpdateJitter(now: nat)
      modifies this`jitterUs, this`cadenceJitterUs, this`lastPacketArrivalUs, this`lastInterArrivalUs
      ensures Estimate() == Jittered(old(Estimate()), now)
    {
      if lastPacketArrivalUs != 0 {
        var interArrival := Elapsed(now, lastPacketArrivalUs);
        if lastInterArrivalUs != 0 {
          jitterUs := (7 * jitterUs + Distance(interArrival, lastInterArrivalUs)) % U64 / 8;
        }
        cadenceJitterUs := (7 * cadenceJitterUs + Distance(interArrival, CADENCE_TARGET_US)) % U64 / 8;
        lastInterArrivalUs := interArrival;
      } else {
        lastInterArrivalUs := 0;
      }
      lastPacketArrivalUs := now;
    }

    /** Once the crypt is known, removes the packets held whose MAC is wrong. The loop peeks at each number of the
        window; `seqGiven` says whether it gives a place for the number of a packet found. The code gives none, so
        that it gets through iff nothing is held. */
    method RecheckMacs(badMac: DataEntry -> bool, seqGiven: bool, ghost h: Run) returns (completed: bool, ghost h': Run)
      requires Idle(h)
      modifies queue, queue.ring, this`drops
      ensures completed <==> seqGiven || NothingHeld(h.held)
      ensures Idle(h') && h'.pulled == h.pulled && h'.arrived == h.arrived && h'.ahead == h.ahead && h'.size == h.size
      ensures !completed ==> h' == h
      ensures completed ==> h'.held == map n | n in h.held && !badMac(h.held[n]) :: h.held[n]
      ensures completed ==> h' == Rechecked(h, badMac, h.pos, h.pos + h.size)
    {
      hide History.Faithful, Rechecking, NoneBelow, NothingHeld, RQ.ReorderQueue.Valid, RQ.ReorderQueue.HintExact;
      completed, h' := true, h;
      var i := 0;
      RecheckingStart(h, badMac);
      AllHeldAhead(h);
      while i < queue.count
        invariant Idle(h') && h'.pos == h.pos && Rechecking(h, h', badMac, queue.pos + i)
        invariant !seqGiven ==> h' == h && NoneBelow(h.held, queue.pos + i)
        decreases queue.count - i
      {
        ghost var before, n := h', queue.pos + i;
        completed, h' := RecheckMac(i, badMac, seqGiven, h');
        if !completed {
          assert !NothingHeld(h.held) by { SomethingHeld(h.held, n); }
          return;
        }
        RecheckingStep(h, before, h', badMac, n);
        if !seqGiven { NoneBelowStep(h.held, n); }
        i := i + 1;
      }
      queue.CountIsExtent();
      RecheckingEnd(h, h', badMac, queue.pos + i);
      if !seqGiven { NothingLeft(h.held, queue.pos + i); }
    }

    method RecheckMac(index: nat, badMac: DataEntry -> bool, seqGiven: bool, ghost h: Run)
      returns (completed: bool, ghost h': Run)
      requires Idle(h) && index < queue.count
      modifies queue, queue.ring, this`drops
      ensures completed <==> seqGiven || h.pos + index !in h.held
      ensures Idle(h') && queue.count <= old(queue.count) && h.pos + index < h.pos + h.size && h'.pos == h.pos
      ensures h' == if completed && h.pos + index in h.held && badMac(h.held[h.pos + index])
                    then Removed(h, h.pos + index) else h
    {
      var p := queue.Peek(index, seqGiven, true);
      if p.Fault? { return false, h; }
      if p.Seen? && badMac(p.user) {
        var d;
        d, h' := RemoveHeld(index, h);
      } else {
        h' := h;
      }
      completed := true;
    }

    method RemoveHeld(index: nat, ghost h: Run) returns (d: seq<RQ.Drop<DataEntry>>, ghost h': Run)
      requires Idle(h) && h.pos + index in h.held
      modifies queue, queue.ring, this`drops
      ensures Idle(h') && h' == Removed(h, h.pos + index) && queue.count <= old(queue.count)
      ensures d == [RQ.Drop((h.pos + index) % queue.modulus, Some(h.held[h.pos + index]))]
    {
      hide History.Faithful, RQ.ReorderQueue.Valid, RQ.ReorderQueue.HintExact, PacketsIn, DropsOf, Removed;
      hide RQ.ReorderQueue.Name;
      ghost var n, e := h.pos + index, h.held[h.pos + index];
      NamedByResidue(n);
      d := queue.DropAt(index);
      h' := Removed(h, n);
      RemovedIs(h, n);
      PacketsInMore(drops, RQ.Drop(n % queue.modulus, Some(e)));
      DropsOfMore(h.dropped, (n, e), queue.modulus);
      drops := drops + d;
    }

    lemma NamedByResidue(n: int)
      requires queue.Valid() && queue.reduces
      ensures queue.modulus > 0 && queue.Name(queue.pos, n) == n % queue.modulus
    {
    }

    /** The drain request: pulls and frees packets up to the next gap. Between packets there are none. */
    method DropDataQueue(ghost h: Run) returns (ack: Option<int>, ghost h': Run)
      requires Follows(h) && HintUsable()
      modifies queue
      ensures Follows(h') && h'.pos !in h'.held
      ensures exists events :: Drained(h, h', events, ack, queue.modulus)
      ensures old(Idle(h)) ==> Idle(h') && h' == h && ack == None
    {
      ack, h' := None, h;
      ghost var events: seq<DataEvent> := [];
      while true
        invariant Follows(h') && HintUsable() && Drained(h, h', events, ack, queue.modulus)
        invariant old(Idle(h)) ==> Idle(h') && h' == h && ack == None
        decreases queue.count
      {
        ghost var before := h';
        var p;
        p, h' := PullOne(h');
        if p.None? { break; }
        PullDrains(h, before, events, ack, queue.modulus);
        events, ack := events + p.value.1, Some(p.value.0);
      }
    }

    lemma EmptyIsIdle(h: Run)
      requires Follows(h) && HintUsable() && queue.count == 0
      ensures Idle(h) && NothingHeld(h.held)
    {
      queue.CountIsExtent();
    }

    /** Drains the queue; the result is the events delivered and the number acknowledged. */
    method FlushDataQueue(ghost h: Run) returns (events: seq<DataEvent>, ack: Option<int>, ghost h': Run)
      requires Follows(h) && HintUsable()
      modifies queue, queue.ring, this`ticks, this`gapsSkipped, this`drops
      ensures Idle(h')
      ensures Drained(h, h', events, ack, queue.modulus) && Delivered(h'.pulled[|h.pulled|..], events)
      ensures (h', ticks) == Drain(h, clock, old(ticks), Threshold(jitterUs, maxThresholdUs))
      ensures DrainedBy(h, h', clock, old(ticks), ticks, Threshold(jitterUs, maxThresholdUs))
    {
      hide History.Faithful, Drained, Progress, Delivered, DrainedBy;
      DrainIs(h, clock, ticks, Threshold(jitterUs, maxThresholdUs));
      events, ack, h' := [], None, h;
      DrainedNone(h, queue.modulus);
      while true
        invariant Follows(h') && HintUsable()
        invariant Drained(h, h', events, ack, queue.modulus)
        invariant Drain(h', clock, ticks, Threshold(jitterUs, maxThresholdUs))
               == Drain(h, clock, old(ticks), Threshold(jitterUs, maxThresholdUs))
        decreases queue.count
      {
        ghost var before := h';
        var p;
        p, h' := PullOne(h');
        if p.Some? {
          PullDrains(h, before, events, ack, queue.modulus);
          events, ack := events + p.value.1, Some(p.value.0);
          continue;
        }
        before := h';
        var passed;
        passed, h' := PassGap(h');
        if !passed { break; }
        SkipDrains(h, before, events, ack, queue.modulus);
      }
      DrainedNew(h, h', events, ack, queue.modulus);
    }

    /** When nothing can be pulled: a gap that is old enough is stepped over by one, else the drain is over. */
    method PassGap(ghost h: Run) returns (passed: bool, ghost h': Run)
      requires Follows(h) && HintUsable() && h.pos !in h.held
      modifies queue, queue.ring, this`ticks, this`gapsSkipped, this`drops
      ensures Follows(h') && HintUsable()
      ensures var thresholdUs := Threshold(jitterUs, maxThresholdUs);
              if passed then h' == Skipped(h) && queue.count < old(queue.count)
                             && Drain(h', clock, ticks, thresholdUs) == Drain(h, clock, old(ticks), thresholdUs)
              else h' == h && Idle(h) && (h, ticks) == Drain(h, clock, old(ticks), thresholdUs)
    {
      hide Drain, History.Faithful, RQ.ReorderQueue.Valid, PacketsIn, DropsOf;
      DrainAtGap(h, clock, ticks, Threshold(jitterUs, maxThresholdUs));
      if queue.count == 0 {
        EmptyIsIdle(h);
        return false, h;
      }
      var expired := GapExpired(h);
      if !expired { return false, h; }
      var d;
      d, h' := SkipMissing(h);
      passed := true;
    }
  }

  ghost predicate NoneBelow(held: map<int, DataEntry>, n: int) {
    forall k :: k in held ==> n <= k
  }

  lemma NoneBelowStep(held: map<int, DataEntry>, n: int)
    requires NoneBelow(held, n) && n !in held
    ensures NoneBelow(held, n + 1)
  {}

  lemma NothingLeft(held: map<int, DataEntry>, n: int)
    requires NoneBelow(held, n) && forall k :: k in held ==> k < n
    ensures NothingHeld(held)
  {}

  lemma SomethingHeld(held: map<int, DataEntry>, n: int)
    requires n in held
    ensures !NothingHeld(held)
  {}

  lemma AllHeldAhead(h: Run)
    ensures NoneBelow(h.held, h.pos)
  {
    assert h.HeldFirst(h.held);
  }

  /** The packets left once those numbered below `lo` have been checked. */
  ghost function Swept(held: map<int, DataEntry>, badMac: DataEntry -> bool, lo: int): map<int, DataEntry> {
    map n | n in held && (n >= lo || !badMac(held[n])) :: held[n]
  }

  /** The packets numbered below `n` have been checked, and those of them removed whose MAC was wrong. */
  ghost predicate Rechecking(h: Run, h': Run, badMac: DataEntry -> bool, n: int) {
    && h'.pulled == h.pulled && h'.arrived == h.arrived && h'.ahead == h.ahead && h'.size == h.size && h'.pos == h.pos
    && h'.held == Swept(h.held, badMac, n)
    && Rechecked(h', badMac, n, h.pos + h.size) == Rechecked(h, badMac, h.pos, h.pos + h.size)
  }

  lemma RecheckingStart(h: Run, badMac: DataEntry -> bool)
    ensures Rechecking(h, h, badMac, h.pos)
  {
    SweptNone(h, badMac);
  }

  lemma RecheckingStep(h: Run, h': Run, h'': Run, badMac: DataEntry -> bool, n: int)
    requires Rechecking(h, h', badMac, n) && n < h.pos + h.size
    requires h'' == if n in h'.held && badMac(h'.held[n]) then Removed(h', n) else h'
    ensures Rechecking(h, h'', badMac, n + 1)
  {
    hide History.Faithful;
    SweptStep(h.held, badMac, n);
  }

  lemma RecheckingEnd(h: Run, h': Run, badMac: DataEntry -> bool, n: int)
    requires Rechecking(h, h', badMac, n) && forall k :: k in h'.held ==> k < n
    ensures h'.pulled == h.pulled && h'.arrived == h.arrived && h'.ahead == h.ahead && h'.size == h.size
    ensures h'.held == map n | n in h.held && !badMac(h.held[n]) :: h.held[n]
    ensures h' == Rechecked(h, badMac, h.pos, h.pos + h.size)
  {
    hide History.Faithful;
    SweptAll(h.held, badMac, n);
    RecheckedNone(h', badMac, n, h.pos + h.size);
  }

  lemma SweptNone(h: Run, badMac: DataEntry -> bool)
    ensures Swept(h.held, badMac, h.pos) == h.held
  {}

  lemma SweptStep(held: map<int, DataEntry>, badMac: DataEntry -> bool, n: int)
    ensures n in held ==> n in Swept(held, badMac, n) && Swept(held, badMac, n)[n] == held[n]
    ensures Swept(held, badMac, n + 1)
         == if n in held && badMac(held[n]) then Swept(held, badMac, n) - {n} else Swept(held, badMac, n)
  {}

  lemma SweptAll(held: map<int, DataEntry>, badMac: DataEntry -> bool, hi: int)
    requires forall n :: n in Swept(held, badMac, hi) ==> n < hi
    ensures Swept(held, badMac, hi) == map n | n in held && !badMac(held[n]) :: held[n]
  {
    assert forall n :: n in held && n >= hi ==> n in Swept(held, badMac, hi);
  }

  /** What becomes of packet `e` numbered `n` on its arrival. */
  ghost function Arrival(h: Run, n: int, e: DataEntry): Run
    requires e.id == |h.arrived|
  {
    if n < h.pos || n in h.held || n >= h.pos + h.size then TurnedAway(h, n, e) else Admitted(h, n, e)
  }

  /** From the first history to the second packets were pulled that gave these events;
      if any was pulled, the last one was acknowledged. */
  ghost predicate Progress(h: Run, h': Run, events: seq<DataEvent>, ack: Option<int>, modulus: nat) {
    && h.pulled <= h'.pulled
    && EventsOf(h'.pulled) == EventsOf(h.pulled) + events
    && modulus > 0
    && if |h'.pulled| == |h.pulled| then ack == None
       else ack == Some(h'.pulled[|h'.pulled| - 1].0 % modulus)
  }

  /** ... and nothing else happened, except that missing numbers were skipped. */
  ghost predicate Drained(h: Run, h': Run, events: seq<DataEvent>, ack: Option<int>, modulus: nat) {
    && Progress(h, h', events, ack, modulus)
    && h'.arrived == h.arrived && h'.ahead == h.ahead && h'.dropped == h.dropped
    && h'.removed == h.removed && h'.size == h.size
  }

  lemma DrainedNone(h: Run, modulus: nat)
    requires modulus > 0
    ensures Drained(h, h, [], None, modulus)
  {
  }

  lemma DrainedNew(h: Run, h': Run, events: seq<DataEvent>, ack: Option<int>, modulus: nat)
    requires Drained(h, h', events, ack, modulus)
    ensures h.pulled <= h'.pulled && Delivered(h'.pulled[|h.pulled|..], events)
  {
    NewDelivered(h, h', events, ack, modulus);
  }

  lemma SkipDrains(h: Run, h': Run, events: seq<DataEvent>, ack: Option<int>, modulus: nat)
    requires Drained(h, h', events, ack, modulus) && h'.pos !in h'.held
    ensures Drained(h, Skipped(h'), events, ack, modulus)
  {}

  lemma PullDrains(h: Run, h': Run, events: seq<DataEvent>, ack: Option<int>, modulus: nat)
    requires Drained(h, h', events, ack, modulus) && h'.pos in h'.held
    ensures Drained(h, Pulled(h'), events + EventOf(h'.held[h'.pos]), Some(h'.pos % modulus), modulus)
  {
    var ps := Pulled(h').pulled;
    assert ps[..|ps| - 1] == h'.pulled;
  }
}
