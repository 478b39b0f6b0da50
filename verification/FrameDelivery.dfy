/** Whole frames: what a sender cuts into units, and what the frame processor makes of the units that arrive. */
module FrameDelivery {
  import opened Basics
  import opened Bytes
  import opened FrameProcessor

  /**
   * A frame as it is sent: source units of different sizes, each beginning with how much shorter it is than the
   * longest possible one, as two bytes with the high one first, and `fec` parity units computed over the padded
   * source units. With `fec` zero one row of parity is still set aside, but never sent.
   */
  datatype RawFrame = Frame(size: nat, sources: seq<seq<byte>>, parity: seq<seq<byte>>, fec: nat)

  ghost predicate WellFormed(f: RawFrame) {
    && 2 <= f.size && 0 < |f.sources| && |f.sources| + |f.parity| <= UNIT_SLOTS_MAX
    && |f.parity| == Max(f.fec, 1)
    && (forall i :: 0 <= i < |f.sources| ==>
          2 <= |f.sources[i]| <= f.size && Begins(f.sources[i], f.size - |f.sources[i]|))
    && (forall i :: 0 <= i < |f.parity| ==> |f.parity[i]| == f.size)
  }

  /** The first two bytes say `n`, high byte first. */
  predicate Begins(u: seq<byte>, n: nat)
    requires |u| >= 2
  {
    n < 0x1_0000 && u[0] == n / 0x100 && u[1] == n % 0x100
  }

  lemma BeginsIs(u: seq<byte>, n: nat)
    requires |u| >= 2 && n < 0x1_0000
    ensures Begins(u, n) <==> Header(u) == n
  {
  }

  type Frame = f: RawFrame | WellFormed(f) ghost witness Frame(2, [[0, 0]], [[0, 0]], 0)

  ghost function Unit(f: Frame, i: nat): (u: seq<byte>)
    requires i < |f.sources| + |f.parity|
    ensures 2 <= |u| <= f.size && f.size == |u| + if i < |f.sources| then Header(u) else 0
  {
    if i < |f.sources| then f.sources[i] else f.parity[i - |f.sources|]
  }

  ghost function Codeword(f: Frame): (rows: seq<seq<byte>>)
    ensures |rows| == |f.sources| + |f.parity|
    ensures forall i :: 0 <= i < |rows| ==> rows[i] == Padded(Unit(f, i), f.size)
  {
    seq(|f.sources| + |f.parity|, i requires 0 <= i < |f.sources| + |f.parity| => Padded(Unit(f, i), f.size))
  }

  /** What the sender cut into units: of each of the first `n` source units all but the header. */
  ghost function Payload(f: Frame, n: nat): seq<byte>
    requires n <= |f.sources|
  {
    if n == 0 then [] else Payload(f, n - 1) + Unit(f, n - 1)[2..]
  }

  /** The frame is made up of the source units without their headers, unit `i` lying at `at[i]`. */
  ghost predicate MadeUpOf(frame: seq<byte>, sources: seq<seq<byte>>, at: seq<nat>) {
    && |at| == |sources| + 1 && at[0] == 0 && at[|sources|] == |frame|
    && (forall i :: 0 <= i < |sources| ==> |sources[i]| >= 2 && at[i + 1] == at[i] + (|sources[i]| - 2) <= |frame|)
    && (forall i, k :: 0 <= i < |sources| && 2 <= k < |sources[i]| ==> frame[at[i] + (k - 2)] == sources[i][k])
  }

  lemma {:induction false} PayloadIs(f: Frame, n: nat) returns (at: seq<nat>)
    requires n <= |f.sources|
    ensures MadeUpOf(Payload(f, n), f.sources[..n], at)
  {
    if n == 0 {
      at := [0];
    } else {
      at := PayloadIs(f, n - 1);
      assert f.sources[..n] == f.sources[..n - 1] + [f.sources[n - 1]];
      MadeUpMore(Payload(f, n - 1), f.sources[..n - 1], at, f.sources[n - 1]);
      at := at + [|Payload(f, n)|];
    }
  }

  lemma MadeUpMore(frame: seq<byte>, sources: seq<seq<byte>>, at: seq<nat>, u: seq<byte>)
    requires MadeUpOf(frame, sources, at) && |u| >= 2
    ensures MadeUpOf(frame + u[2..], sources + [u], at + [|frame + u[2..]|])
  {
    var more, units, next := frame + u[2..], sources + [u], at + [|frame + u[2..]|];
    forall i, k | 0 <= i < |units| && 2 <= k < |units[i]| ensures more[next[i] + (k - 2)] == units[i][k] {
      if i < |sources| { assert at[i + 1] == at[i] + (|sources[i]| - 2) <= |frame|; }
    }
  }

  /** The frame is the source units without their headers, one after the other. */
  ghost predicate Carried(frame: seq<byte>, f: Frame) {
    exists at :: MadeUpOf(frame, f.sources, at)
  }

  lemma PayloadCarried(f: Frame)
    ensures Carried(Payload(f, |f.sources|), f)
  {
    hide MadeUpOf;
    var at := PayloadIs(f, |f.sources|);
    assert f.sources[..|f.sources|] == f.sources;
  }

  ghost function Packet(f: Frame, i: nat): AVPacket
    requires i < |f.sources| + |f.parity|
  {
    AVPacket(true, i, |f.sources| + f.fec, f.fec, Unit(f, i))
  }

  /** Rows of which only those listed may differ from what was sent. */
  ghost predicate Agree(rows: seq<seq<byte>>, codeword: seq<seq<byte>>, erasures: seq<nat>) {
    && SameShape(rows, codeword)
    && forall i :: 0 <= i < |rows| && i !in erasures ==> rows[i] == codeword[i]
  }

  /** An erasure code: with no more rows missing than there are parity rows it restores all, with more it gives up. */
  ghost predicate Restores(decode: Decoder, f: Frame) {
    forall rows: seq<seq<byte>>, erasures: seq<nat> :: Agree(rows, Codeword(f), erasures) ==>
      decode(rows, |f.sources|, |f.parity|, erasures)
      == if |erasures| <= |f.parity| then Some(Codeword(f)) else None
  }

  /** The rows in which two frames differ. */
  ghost function Differing(f: Frame, g: Frame): set<nat>
    requires SameShape(Codeword(f), Codeword(g))
  {
    set i: nat | i < |Codeword(f)| && Codeword(f)[i] != Codeword(g)[i]
  }

  /** Two frames can be told apart after erasures: they have different counts or different sizes, or differ in more rows
      than there are parity rows (or not at all). */
  ghost predicate Apart(f: Frame, g: Frame) {
    (|f.sources| == |g.sources| && |f.parity| == |g.parity| && SameShape(Codeword(f), Codeword(g))) ==>
      Codeword(f) == Codeword(g) || |Differing(f, g)| > |f.parity|
  }

  ghost predicate AllApart(fs: seq<Frame>) {
    forall i, j :: 0 <= i < |fs| && 0 <= j < |fs| ==> Apart(fs[i], fs[j])
  }

  /** There is one decoder that restores all frames of a list, if they can be told apart ... */
  lemma RestoringDecoder(fs: seq<Frame>) returns (decode: Decoder)
    requires AllApart(fs)
    ensures KeepsShape(decode) && forall i :: 0 <= i < |fs| ==> Restores(decode, fs[i])
  {
    decode := (rows: seq<seq<byte>>, k: nat, m: nat, erasures: seq<nat>) => Nearest(fs, rows, k, m, erasures);
    assert KeepsShape(decode);
    forall i | 0 <= i < |fs| ensures Restores(decode, fs[i]) {
      forall rows: seq<seq<byte>>, erasures: seq<nat> | Agree(rows, Codeword(fs[i]), erasures)
        ensures Nearest(fs, rows, |fs[i].sources|, |fs[i].parity|, erasures)
             == if |erasures| <= |fs[i].parity| then Some(Codeword(fs[i])) else None
      {
        NearestIs(fs, fs[i], rows, erasures);
      }
    }
  }

  /** ... and only then. */
  lemma RestoredApart(decode: Decoder, f: Frame, g: Frame)
    requires Restores(decode, f) && Restores(decode, g)
    ensures Apart(f, g)
  {
    if SameShape(Codeword(f), Codeword(g)) && |f.sources| == |g.sources| && |f.parity| == |g.parity| {
      var erasures := Listed(Differing(f, g));
      assert Agree(Codeword(f), Codeword(f), erasures);
      assert Agree(Codeword(f), Codeword(g), erasures);
    }
  }

  /** What is left of the rows fits the frame, which has these counts. */
  ghost predicate Matches(f: Frame, rows: seq<seq<byte>>, k: nat, m: nat, erasures: seq<nat>) {
    |f.sources| == k && |f.parity| == m && Agree(rows, Codeword(f), erasures)
  }

  /** The codeword of a frame in the list that the rows match. */
  ghost function Nearest(fs: seq<Frame>, rows: seq<seq<byte>>, k: nat, m: nat, erasures: seq<nat>):
    (r: Option<seq<seq<byte>>>)
    ensures r.Some? ==> SameShape(rows, r.value) && |erasures| <= m
    ensures r.Some? ==>
              exists i :: 0 <= i < |fs| && Matches(fs[i], rows, k, m, erasures) && r.value == Codeword(fs[i])
    ensures r.None? ==> |erasures| > m || forall i :: 0 <= i < |fs| ==> !Matches(fs[i], rows, k, m, erasures)
  {
    if |erasures| <= m && exists i :: 0 <= i < |fs| && Matches(fs[i], rows, k, m, erasures) then
      var i :| 0 <= i < |fs| && Matches(fs[i], rows, k, m, erasures);
      Some(Codeword(fs[i]))
    else None
  }

  lemma NearestIs(fs: seq<Frame>, f: Frame, rows: seq<seq<byte>>, erasures: seq<nat>)
    requires AllApart(fs) && f in fs && Agree(rows, Codeword(f), erasures)
    ensures Nearest(fs, rows, |f.sources|, |f.parity|, erasures)
         == if |erasures| <= |f.parity| then Some(Codeword(f)) else None
  {
    hide Codeword, Nearest;
    var r := Nearest(fs, rows, |f.sources|, |f.parity|, erasures);
    var j :| 0 <= j < |fs| && fs[j] == f;
    if r.Some? {
      var i :| 0 <= i < |fs| && Matches(fs[i], rows, |f.sources|, |f.parity|, erasures) && r.value == Codeword(fs[i]);
      assert Apart(fs[i], fs[j]);
      Within(Differing(fs[i], f), erasures);
    } else {
      assert Matches(fs[j], rows, |f.sources|, |f.parity|, erasures);
    }
  }

  lemma {:induction false} Within(s: set<nat>, list: seq<nat>)
    requires forall i :: i in s ==> i in list
    ensures |s| <= |list|
  {
    if list != [] {
      var n := |list| - 1;
      Within(s - {list[n]}, list[..n]);
    } else {
      assert s == {};
    }
  }

  lemma {:induction false} Listed(s: set<nat>) returns (list: seq<nat>)
    ensures |list| == |s| && forall i :: i in list <==> i in s
  {
    if s == {} {
      list := [];
    } else {
      var i :| i in s;
      list := Listed(s - {i});
      list := list + [i];
    }
  }

  /** A frame and its units in the order of their arrival, lost ones left out and repeated ones repeated. */
  datatype RawDelivery = Delivery(frame: Frame, order: seq<nat>)

  ghost predicate Possible(d: RawDelivery) {
    d.order != [] && forall i :: 0 <= i < |d.order| ==> d.order[i] < |d.frame.sources| + d.frame.fec
  }

  type Delivery = d: RawDelivery | Possible(d)
    ghost witness Delivery(Frame(2, [[0, 0]], [[0, 0]], 0), [0])

  /** The units held once the first `n` have arrived. */
  ghost function Held(d: Delivery, n: nat): (units: seq<seq<byte>>)
    requires n <= |d.order|
    ensures |units| == |d.frame.sources| + |d.frame.parity|
    ensures forall i :: 0 <= i < |units| ==> units[i] == if i in d.order[..n] then Unit(d.frame, i) else []
  {
    seq(|d.frame.sources| + |d.frame.parity|, i requires 0 <= i < |d.frame.sources| + |d.frame.parity| =>
      if i in d.order[..n] then Unit(d.frame, i) else [])
  }

  /** All units held in the end. */
  ghost function Units(d: Delivery): (units: seq<seq<byte>>)
    ensures |units| == |d.frame.sources| + |d.frame.parity|
    ensures units == Held(d, |d.order|)
    ensures forall i :: 0 <= i < |units| ==> units[i] == if i in d.order then Unit(d.frame, i) else []
  {
    assert d.order[..|d.order|] == d.order;
    Held(d, |d.order|)
  }

  ghost function Distinct(d: Delivery): set<nat> {
    set i | i in d.order
  }

  /** As many distinct units arrive as there are source units. */
  ghost predicate Enough(d: Delivery) {
    |Distinct(d)| >= |d.frame.sources|
  }

  lemma {:induction false} PresentIsCount(units: seq<seq<byte>>, held: set<nat>)
    requires forall i: nat :: i in held <==> i < |units| && units[i] != []
    ensures Present(units) == |held|
  {
    if units != [] {
      var n := |units| - 1;
      PresentIsCount(units[..n], held - {n});
    } else {
      assert held == {};
    }
  }

  lemma {:induction false} InMissing(units: seq<seq<byte>>, i: nat)
    requires i < |units| && units[i] == []
    ensures i in Missing(units)
  {
    if i < |units| - 1 { InMissing(units[..|units| - 1], i); }
  }

  lemma {:induction false} PresentAll(units: seq<seq<byte>>)
    ensures Present(units) <= |units|
    ensures Present(units) == |units| <==> forall i :: 0 <= i < |units| ==> units[i] != []
  {
    if units != [] {
      var n := |units| - 1;
      PresentAll(units[..n]);
      assert forall i :: 0 <= i < n ==> units[i] == units[..n][i];
    }
  }

  /** What is held is what arrived, counted once. */
  lemma UnitsCount(d: Delivery)
    ensures Present(Units(d)) == |Distinct(d)|
  {
    forall i: nat | i in Distinct(d) ensures i < |Units(d)| {
      var j :| 0 <= j < |d.order| && d.order[j] == i;
    }
    PresentIsCount(Units(d), Distinct(d));
  }

  /** Enough units are those that leave no more missing than there are parity rows. */
  lemma EnoughIs(d: Delivery)
    ensures Enough(d) <==> |Missing(Units(d))| <= |d.frame.parity|
    ensures Present(Units(d)[..|d.frame.sources|]) == |d.frame.sources| ==> Enough(d)
  {
    UnitsCount(d);
    PresentSplit(Units(d), |d.frame.sources|);
  }

  /** Recovery succeeds exactly when no more rows are missing than there are parity rows, and then restores all rows. */
  lemma Decoded(d: Delivery, decode: Decoder)
    requires KeepsShape(decode) && Restores(decode, d.frame)
    ensures var f, units := d.frame, Units(d);
            && (Recovers(units, f.size, |f.sources|, |f.parity|, decode) <==> |Missing(units)| <= |f.parity|)
            && (|Missing(units)| <= |f.parity| ==>
                  RowsAfter(units, f.size, |f.sources|, |f.parity|, decode) == Codeword(f))
  {
    var f, units := d.frame, Units(d);
    var rows := RowsOf(units, f.size);
    forall i | 0 <= i < |rows| && i !in Missing(units) ensures rows[i] == Codeword(f)[i] {
      if units[i] == [] { InMissing(units, i); }
    }
    assert Agree(rows, Codeword(f), Missing(units));
  }

  ghost function Ending(d: Delivery, decode: Decoder): FlushResult {
    FlushStatus(Units(d), d.frame.size, |d.frame.sources|, |d.frame.parity|, decode)
  }

  ghost function Rows(d: Delivery, decode: Decoder): (rows: seq<seq<byte>>)
    requires KeepsShape(decode)
    ensures |rows| == |Units(d)|
  {
    RowsAtFlush(Units(d), d.frame.size, |d.frame.sources|, |d.frame.parity|, decode)
  }

  ghost function Sizes(d: Delivery, decode: Decoder): (sizes: seq<nat>)
    requires KeepsShape(decode)
    ensures |sizes| == |d.frame.sources|
  {
    SizesAtFlush(Units(d), d.frame.size, |d.frame.sources|, |d.frame.parity|, decode)
  }

  /** With enough units, each source row is as sent when the frame is put together. */
  lemma RowsAreSources(d: Delivery, decode: Decoder, i: nat)
    requires KeepsShape(decode) && Restores(decode, d.frame) && Ending(d, decode) != FecFailed && i < |d.frame.sources|
    ensures Rows(d, decode)[i] == Padded(Unit(d.frame, i), d.frame.size)
    ensures Ending(d, decode) == Success ==> Units(d)[i] == Unit(d.frame, i)
  {
    var units, k := Units(d), |d.frame.sources|;
    if Present(units[..k]) == k {
      PresentAll(units[..k]);
      assert units[..k][i] == units[i];
    } else {
      Decoded(d, decode);
    }
  }

  /** And so is its size. */
  lemma SizesAreSources(d: Delivery, decode: Decoder, i: nat)
    requires KeepsShape(decode) && Restores(decode, d.frame) && Ending(d, decode) != FecFailed && i < |d.frame.sources|
    ensures Sizes(d, decode)[i] == |Unit(d.frame, i)|
  {
    RowsAreSources(d, decode, i);
    HeaderKept(Unit(d.frame, i), d.frame.size);
    hide KeepsShape, Restores, Unit, Padded, FlushStatus, RowsAtFlush;
  }

  lemma HeaderKept(u: seq<byte>, size: nat)
    requires 2 <= |u| <= size && Begins(u, size - |u|)
    ensures SizeAfter(Padded(u, size), 0) == |u|
    ensures forall s: nat :: SizeAfter(Padded(u, size), s) == |u|
  {
    assert Header(Padded(u, size)) == Header(u);
  }

  lemma {:induction false} AssembledIs(f: Frame, rows: seq<seq<byte>>, sizes: seq<nat>, n: nat)
    requires n <= |f.sources| && n <= |rows| && n <= |sizes|
    requires forall i :: 0 <= i < n ==> rows[i] == Padded(Unit(f, i), f.size) && sizes[i] == |Unit(f, i)|
    ensures forall i :: 0 <= i < n ==> sizes[i] <= |rows[i]|
    ensures Assembled(rows, sizes, n) == Payload(f, n)
  {
    if n > 0 {
      AssembledIs(f, rows, sizes, n - 1);
      assert Padded(Unit(f, n - 1), f.size)[2..sizes[n - 1]] == Unit(f, n - 1)[2..];
    }
  }

  /** Recovery is needed and fails exactly when too few units arrived. */
  lemma EndingIs(d: Delivery, decode: Decoder)
    requires KeepsShape(decode) && Restores(decode, d.frame)
    ensures Ending(d, decode) == FecFailed <==> !Enough(d)
  {
    EnoughIs(d);
    Decoded(d, decode);
  }

  /** The frame flushed is the payload whenever enough units arrived. */
  lemma FlushOf(d: Delivery, decode: Decoder)
    requires KeepsShape(decode) && Restores(decode, d.frame) && Enough(d)
    ensures FrameOf(Units(d), d.frame.size, |d.frame.sources|, |d.frame.parity|, decode)
         == Payload(d.frame, |d.frame.sources|)
  {
    EndingIs(d, decode);
    var rows, sizes := Rows(d, decode), Sizes(d, decode);
    forall i | 0 <= i < |d.frame.sources|
      ensures rows[i] == Padded(Unit(d.frame, i), d.frame.size) && sizes[i] == |Unit(d.frame, i)|
    {
      RowsAreSources(d, decode, i);
      SizesAreSources(d, decode, i);
    }
    AssembledIs(d.frame, rows, sizes, |d.frame.sources|);
  }

  /** Both together: a frame is flushed as complete exactly when enough units arrived, and then is the payload. */
  lemma FlushIs(d: Delivery, decode: Decoder)
    requires KeepsShape(decode) && Restores(decode, d.frame)
    ensures var f := d.frame;
            && (FlushStatus(Units(d), f.size, |f.sources|, |f.parity|, decode) == FecFailed <==> !Enough(d))
            && (Enough(d) ==> FrameOf(Units(d), f.size, |f.sources|, |f.parity|, decode) == Payload(f, |f.sources|))
  {
    EndingIs(d, decode);
    if Enough(d) { FlushOf(d, decode); }
  }

  /** A unit that arrives is accepted and joins what is held, unless it is there already. */
  lemma HeldStep(d: Delivery, n: nat)
    requires n < |d.order|
    ensures d.order[n] < |d.frame.sources| + |d.frame.parity|
    ensures PutStatus(Held(d, n), d.frame.size, Packet(d.frame, d.order[n])) == Ok
    ensures Held(d, n + 1)
            == if Held(d, n)[d.order[n]] == [] then Held(d, n)[d.order[n] := Unit(d.frame, d.order[n])] else Held(d, n)
  {
    assert d.order[..n + 1] == d.order[..n] + [d.order[n]];
  }

  /** The first unit of a frame to arrive, whichever it is, begins it with the size all units fit in. */
  lemma FirstPacket(d: Delivery)
    ensures d.order[0] < |d.frame.sources| + |d.frame.parity|
    ensures AllocStatus(Packet(d.frame, d.order[0])) == Ok && FrameUnitSize(Packet(d.frame, d.order[0])) == d.frame.size
  {
    assert d.order[0] < |d.frame.sources| + d.frame.fec;
  }

  /** Takes in the units of one frame as they arrive and flushes it. */
  method Assemble(fp: FrameProcessor, ghost d: Delivery, packets: seq<AVPacket>)
    returns (result: FlushResult, frame: seq<byte>)
    requires fp.Shape() && Restores(fp.decode, d.frame) && Carries(packets, d)
    modifies fp, fp.frameBuf, fp.unitSlots
    ensures fp.Shape() && (fp.frameBuf == old(fp.frameBuf) || fresh(fp.frameBuf))
    ensures fp.unitSlots == old(fp.unitSlots) || fresh(fp.unitSlots)
    ensures result == Success || result == FecSuccess <==> Enough(d)
    ensures Enough(d) ==> frame == Payload(d.frame, |d.frame.sources|)
  {
    Begin(fp, d, packets[0]);
    result, frame := Complete(fp, d, packets);
  }

  /** Takes in the units of a frame that has been begun, and flushes it. */
  method Complete(fp: FrameProcessor, ghost d: Delivery, packets: seq<AVPacket>)
    returns (result: FlushResult, frame: seq<byte>)
    requires Restores(fp.decode, d.frame) && Carries(packets, d) && Underway(fp, d, 0)
    modifies fp`sourceReceived, fp`fecReceived, fp`units, fp.frameBuf, fp.unitSlots
    ensures fp.Shape() && fp.frameBuf == old(fp.frameBuf) && fp.unitSlots == old(fp.unitSlots)
    ensures result == Success || result == FecSuccess <==> Enough(d)
    ensures Enough(d) ==> frame == Payload(d.frame, |d.frame.sources|)
  {
    PutAll(fp, d, packets, 0);
    result, frame := Finish(fp, d);
  }

  method Finish(fp: FrameProcessor, ghost d: Delivery) returns (result: FlushResult, frame: seq<byte>)
    requires Restores(fp.decode, d.frame) && Underway(fp, d, |d.order|)
    modifies fp.frameBuf, fp.unitSlots
    ensures fp.Shape() && fp.frameBuf == old(fp.frameBuf) && fp.unitSlots == old(fp.unitSlots)
    ensures result == Success || result == FecSuccess <==> Enough(d)
    ensures Enough(d) ==> frame == Payload(d.frame, |d.frame.sources|)
  {
    FlushIs(d, fp.decode);
    assert fp.units == Units(d);
    var size;
    result, size := fp.Flush();
    frame := fp.frameBuf[..size];
  }

  /** A frame of this delivery is being assembled, and holds what has arrived up to the `n`th unit. */
  ghost predicate Underway(fp: FrameProcessor, d: Delivery, n: nat)
    requires n <= |d.order|
    reads fp, fp.frameBuf, fp.unitSlots
  {
    && fp.Assembling() && fp.units == Held(d, n) && fp.sizePerUnit == d.frame.size
    && fp.sourceExpected == |d.frame.sources| && fp.fecExpected == |d.frame.parity|
  }

  method Begin(fp: FrameProcessor, ghost d: Delivery, packet: AVPacket)
    requires fp.Shape() && packet == PacketAt(d, 0)
    modifies fp, fp.frameBuf, fp.unitSlots
    ensures fp.frameBuf == old(fp.frameBuf) || fresh(fp.frameBuf)
    ensures fp.unitSlots == old(fp.unitSlots) || fresh(fp.unitSlots)
    ensures Underway(fp, d, 0)
  {
    FirstPacket(d);
    hide AllocStatus, FrameUnitSize, Unit, Padded, Held, FrameProcessor.Shape;
    var status := fp.AllocFrame(packet);
    NoneHeld(d, fp.units);
  }

  lemma NoneHeld(d: Delivery, units: seq<seq<byte>>)
    requires |units| == |d.frame.sources| + |d.frame.parity| && forall i :: 0 <= i < |units| ==> units[i] == []
    ensures units == Held(d, 0)
  {
  }

  ghost predicate Carries(packets: seq<AVPacket>, d: Delivery) {
    |packets| == |d.order| && forall i :: 0 <= i < |packets| ==> packets[i] == PacketAt(d, i)
  }

  ghost function PacketAt(d: Delivery, n: nat): AVPacket
    requires n < |d.order|
  {
    HeldStep(d, n);
    Packet(d.frame, d.order[n])
  }

  /** Takes in the packets from the `n`th on. */
  method PutAll(fp: FrameProcessor, ghost d: Delivery, packets: seq<AVPacket>, n: nat)
    requires n <= |packets| && Carries(packets, d) && Underway(fp, d, n)
    modifies fp`sourceReceived, fp`fecReceived, fp`units, fp.frameBuf, fp.unitSlots
    ensures fp.frameBuf == old(fp.frameBuf) && fp.unitSlots == old(fp.unitSlots) && Underway(fp, d, |d.order|)
    decreases |packets| - n
  {
    if n < |packets| {
      PutOne(fp, d, n, packets[n]);
      PutAll(fp, d, packets, n + 1);
    }
  }

  method PutOne(fp: FrameProcessor, ghost d: Delivery, ghost n: nat, packet: AVPacket)
    requires n < |d.order| && Underway(fp, d, n) && packet == PacketAt(d, n)
    modifies fp`sourceReceived, fp`fecReceived, fp`units, fp.frameBuf, fp.unitSlots
    ensures fp.frameBuf == old(fp.frameBuf) && fp.unitSlots == old(fp.unitSlots) && Underway(fp, d, n + 1)
  {
    hide Unit, Held, FrameProcessor.Assembling, FrameProcessor.Shape;
    HeldStep(d, n);
    var status := fp.PutUnit(packet);
  }

  /**
   * Frame after frame through the same processor: each frame of which at least as many distinct units arrive as it has
   * source units comes out exactly as sent, in whatever order they arrive and however often; no other frame is passed
   * off as complete.
   */
  method AssembleAll(decode: Decoder, ghost ds: seq<Delivery>, arrivals: seq<seq<AVPacket>>)
    returns (results: seq<FlushResult>, frames: seq<seq<byte>>)
    requires KeepsShape(decode) && |arrivals| == |ds|
    requires forall i :: 0 <= i < |ds| ==> Restores(decode, ds[i].frame) && Carries(arrivals[i], ds[i])
    ensures |results| == |frames| == |ds|
    ensures forall i :: 0 <= i < |ds| ==> (results[i] == Success || results[i] == FecSuccess <==> Enough(ds[i]))
    ensures forall i :: 0 <= i < |ds| && Enough(ds[i]) ==> frames[i] == Payload(ds[i].frame, |ds[i].frame.sources|)
    ensures forall i :: 0 <= i < |ds| && Enough(ds[i]) ==> Carried(frames[i], ds[i].frame)
  {
    hide Carried, Restores, Payload, Enough, Carries, KeepsShape;
    var fp := new FrameProcessor(decode);
    results, frames := [], [];
    while |frames| < |arrivals|
      invariant fp.Shape() && fp.decode == decode && fresh(fp) && fresh(fp.frameBuf) && fresh(fp.unitSlots)
      invariant |results| == |frames| <= |ds|
      invariant forall i :: 0 <= i < |frames| ==> (results[i] == Success || results[i] == FecSuccess <==> Enough(ds[i]))
      invariant forall i :: 0 <= i < |frames| && Enough(ds[i]) ==>
                            frames[i] == Payload(ds[i].frame, |ds[i].frame.sources|) && Carried(frames[i], ds[i].frame)
    {
      PayloadCarried(ds[|frames|].frame);
      var result, frame := Assemble(fp, ds[|frames|], arrivals[|frames|]);
      results, frames := results + [result], frames + [frame];
    }
  }
}
