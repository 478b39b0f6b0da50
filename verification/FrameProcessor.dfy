/** Assembly of a video frame from units that arrive in any order, some of them replaced by parity units. */
module FrameProcessor {
  import opened Basics
  import opened Bytes
  import Memory

  const UNIT_SLOTS_MAX: nat := 256
  const BUFFER_PADDING: nat := 64

  /** The two bytes at the start of a source unit, in network order. */
  function Header(s: seq<byte>): nat
    requires |s| >= 2
  {
    (s[0] as int) * 256 + s[1]
  }

  datatype AVPacket = AVPacket(isVideo: bool, unitIndex: nat, unitsTotal: nat, unitsFec: nat, data: seq<byte>)

  datatype Status = Ok | InvalidData | BufTooSmall

  datatype FlushResult = Success | FecSuccess | FecFailed | Failed

  function Zeros(n: nat): (z: seq<byte>)
    ensures |z| == n && forall i :: 0 <= i < n ==> z[i] == 0
  {
    seq<byte>(n, i => 0)
  }

  /** A unit as it lies in its row of the buffer. */
  function Padded(u: seq<byte>, size: nat): (r: seq<byte>)
    requires |u| <= size
    ensures |r| == size && forall i :: 0 <= i < size ==> r[i] == if i < |u| then u[i] else 0
  {
    u + Zeros(size - |u|)
  }

  /** Where row `i` starts: `i` strides on. */
  function Offset(stride: nat, i: nat): nat {
    if i == 0 then 0 else Offset(stride, i - 1) + stride
  }

  lemma OffsetIs(stride: nat, i: nat)
    ensures Offset(stride, i) == i * stride
  {
    if i > 0 {
      OffsetIs(stride, i - 1);
      assert i * stride == (i - 1) * stride + stride;
    }
  }

  lemma OffsetsApart(stride: nat, i: nat, j: nat)
    requires i < j
    ensures Offset(stride, i) + stride <= Offset(stride, j)
  {
    if i < j - 1 { OffsetsApart(stride, i, j - 1); }
  }

  /** The rows of a frame and the numbers of those missing go in, all rows come out, unless there are too many
      missing. */
  type Decoder = (seq<seq<byte>>, nat, nat, seq<nat>) -> Option<seq<seq<byte>>>

  ghost predicate SameShape(rows: seq<seq<byte>>, rows': seq<seq<byte>>) {
    |rows| == |rows'| && forall i :: 0 <= i < |rows| ==> |rows[i]| == |rows'[i]|
  }

  /** The decoder gives back rows of the shape it was given. */
  ghost predicate KeepsShape(decode: Decoder) {
    forall rows: seq<seq<byte>>, k: nat, m: nat, erasures: seq<nat> ::
      decode(rows, k, m, erasures).Some? ==> SameShape(rows, decode(rows, k, m, erasures).value)
  }

  /** The slots that hold no unit, in ascending order. */
  function Missing(units: seq<seq<byte>>): (e: seq<nat>)
    ensures |e| <= |units|
  {
    if units == [] then []
    else Missing(units[..|units| - 1]) + if units[|units| - 1] == [] then [|units| - 1] else []
  }

  function Present(units: seq<seq<byte>>): (n: nat)
    ensures n + |Missing(units)| == |units|
  {
    if units == [] then 0
    else Present(units[..|units| - 1]) + if units[|units| - 1] == [] then 0 else 1
  }

  lemma {:induction false} PresentAdd(units: seq<seq<byte>>, i: nat, u: seq<byte>)
    requires i < |units| && units[i] == [] && u != []
    ensures Present(units[i := u]) == Present(units) + 1
  {
    var n := |units| - 1;
    if i < n {
      PresentAdd(units[..n], i, u);
      assert units[i := u][..n] == units[..n][i := u];
    } else {
      assert units[i := u][..n] == units[..n];
    }
  }

  lemma {:induction false} PresentNone(units: seq<seq<byte>>)
    requires forall i :: 0 <= i < |units| ==> units[i] == []
    ensures Present(units) == 0
  {
    if units != [] { PresentNone(units[..|units| - 1]); }
  }

  lemma {:induction false} PresentSplit(units: seq<seq<byte>>, k: nat)
    requires k <= |units|
    ensures Present(units) == Present(units[..k]) + Present(units[k..])
  {
    var n := |units| - 1;
    if k <= n {
      PresentSplit(units[..n], k);
      SlicesOfPrefix(units, n, k);
    } else {
      assert units[..k] == units && units[k..] == [];
    }
  }

  lemma SlicesOfPrefix<T>(s: seq<T>, n: nat, k: nat)
    requires k <= n <= |s|
    ensures s[..n][..k] == s[..k] && s[..n][k..] == s[k..][..n - k]
  {
  }

  /** The frame put together from the first `n` rows: of each, what its size says, without the header. */
  function Assembled(rows: seq<seq<byte>>, sizes: seq<nat>, n: nat): seq<byte>
    requires n <= |rows| && n <= |sizes|
    requires forall i :: 0 <= i < n ==> sizes[i] <= |rows[i]|
  {
    if n == 0 then []
    else Assembled(rows, sizes, n - 1) + if sizes[n - 1] < 2 then [] else rows[n - 1][2..sizes[n - 1]]
  }

  /** A source unit of a video frame, which begins with how much shorter it is than the longest possible one. */
  predicate TellsSize(packet: AVPacket) {
    packet.isVideo && packet.unitIndex < packet.unitsTotal - packet.unitsFec
  }

  /** The size of the units of a frame as its first packet tells it. */
  function FrameUnitSize(packet: AVPacket): nat {
    if packet.isVideo && packet.unitIndex < packet.unitsTotal - packet.unitsFec && |packet.data| >= 2
    then |packet.data| + Header(packet.data) else |packet.data|
  }

  function AllocStatus(packet: AVPacket): Status {
    if packet.unitsTotal < packet.unitsFec then InvalidData
    else if packet.isVideo && packet.unitIndex < packet.unitsTotal - packet.unitsFec
            && |packet.data| < 2 then BufTooSmall
    else if FrameUnitSize(packet) == 0 then BufTooSmall
    else if packet.unitsTotal - packet.unitsFec + Max(packet.unitsFec, 1) > UNIT_SLOTS_MAX then InvalidData
    else Ok
  }

  function PutStatus(units: seq<seq<byte>>, size: nat, packet: AVPacket): Status {
    var i := packet.unitIndex;
    if i >= |units| || packet.data == [] || |packet.data| > size then InvalidData
    else if units[i] != [] && units[i] != packet.data then InvalidData
    else Ok
  }

  lemma CountUnit(units: seq<seq<byte>>, k: nat, i: nat, data: seq<byte>)
    requires k <= |units| && i < |units| && units[i] == [] && data != []
    ensures Present(units[i := data][..k]) == Present(units[..k]) + if i < k then 1 else 0
    ensures Present(units[i := data][k..]) == Present(units[k..]) + if i < k then 0 else 1
  {
    if i < k {
      PresentAdd(units[..k], i, data);
      assert units[i := data][..k] == units[..k][i := data] && units[i := data][k..] == units[k..];
    } else {
      PresentAdd(units[k..], i - k, data);
      assert units[i := data][k..] == units[k..][i - k := data] && units[i := data][..k] == units[..k];
    }
  }

  function RowsOf(units: seq<seq<byte>>, size: nat): (rows: seq<seq<byte>>)
    requires forall i :: 0 <= i < |units| ==> |units[i]| <= size
    ensures |rows| == |units| && forall i :: 0 <= i < |units| ==> rows[i] == Padded(units[i], size)
  {
    seq(|units|, i requires 0 <= i < |units| => Padded(units[i], size))
  }

  /** The rows once recovery has been attempted. */
  ghost function RowsAfter(units: seq<seq<byte>>, size: nat, k: nat, m: nat, decode: Decoder): (rows: seq<seq<byte>>)
    requires KeepsShape(decode) && forall i :: 0 <= i < |units| ==> |units[i]| <= size
    ensures |rows| == |units| && forall i :: 0 <= i < |units| ==> |rows[i]| == size
  {
    var rows := RowsOf(units, size);
    var decoded := decode(rows, k, m, Missing(units));
    if decoded.Some? then (assert SameShape(rows, decoded.value); decoded.value) else rows
  }

  ghost predicate Recovers(units: seq<seq<byte>>, size: nat, k: nat, m: nat, decode: Decoder)
    requires forall i :: 0 <= i < |units| ==> |units[i]| <= size
  {
    decode(RowsOf(units, size), k, m, Missing(units)).Some?
  }

  /** The size of a source unit by its header, if that makes sense. */
  function SizeAfter(row: seq<byte>, size: nat): nat {
    if |row| >= 2 && Header(row) < |row| then |row| - Header(row) else size
  }

  /** Sizes below two all mean that the unit contributes nothing. */
  predicate SameSize(a: nat, b: nat) {
    a == b || (a < 2 && b < 2)
  }

  /** How a flush ends when there is a frame to flush. */
  ghost function FlushStatus(units: seq<seq<byte>>, size: nat, k: nat, m: nat, decode: Decoder): FlushResult
    requires k <= |units| && forall i :: 0 <= i < |units| ==> |units[i]| <= size
  {
    if Present(units[..k]) == k then Success
    else if Recovers(units, size, k, m, decode) then FecSuccess else FecFailed
  }

  /** The rows a frame is put together from. */
  ghost function RowsAtFlush(units: seq<seq<byte>>, size: nat, k: nat, m: nat, decode: Decoder): (rows: seq<seq<byte>>)
    requires k <= |units| && KeepsShape(decode) && forall i :: 0 <= i < |units| ==> |units[i]| <= size
    ensures |rows| == |units| && forall i :: 0 <= i < |units| ==> |rows[i]| == size
  {
    if Present(units[..k]) == k then RowsOf(units, size) else RowsAfter(units, size, k, m, decode)
  }

  /** The sizes of the source units a frame is put together from. */
  ghost function SizesAtFlush(units: seq<seq<byte>>, size: nat, k: nat, m: nat, decode: Decoder): (sizes: seq<nat>)
    requires k <= |units| && KeepsShape(decode) && forall i :: 0 <= i < |units| ==> |units[i]| <= size
    ensures |sizes| == k && forall i :: 0 <= i < k ==> sizes[i] <= size
  {
    var rows := RowsAtFlush(units, size, k, m, decode);
    if FlushStatus(units, size, k, m, decode) == FecSuccess
    then seq(k, i requires 0 <= i < k => SizeAfter(rows[i], |units[i]|))
    else seq(k, i requires 0 <= i < k => |units[i]|)
  }

  ghost function FrameOf(units: seq<seq<byte>>, size: nat, k: nat, m: nat, decode: Decoder): seq<byte>
    requires k <= |units| && KeepsShape(decode) && forall i :: 0 <= i < |units| ==> |units[i]| <= size
  {
    Assembled(RowsAtFlush(units, size, k, m, decode), SizesAtFlush(units, size, k, m, decode), k)
  }

  lemma {:induction false} AssembledSame(rows: seq<seq<byte>>, sizes: seq<nat>, sizes': seq<nat>, n: nat)
    requires n <= |rows| && n <= |sizes| && n <= |sizes'|
    requires forall i :: 0 <= i < n ==> sizes[i] <= |rows[i]| && sizes'[i] <= |rows[i]| && SameSize(sizes[i], sizes'[i])
    ensures Assembled(rows, sizes, n) == Assembled(rows, sizes', n)
  {
    if n > 0 { AssembledSame(rows, sizes, sizes', n - 1); }
  }

  class FrameProcessor {
    const decode: Decoder
    var frameBuf: array<byte>
    var frameBufSize: nat
    var sizePerUnit: nat
    var stride: nat
    var sourceExpected: nat
    var fecExpected: nat
    var sourceReceived: nat
    var fecReceived: nat
    var unitSlots: array<nat>
    var flushed: bool

    /** The units taken in since the frame was allocated; a missing one is empty. */
    ghost var units: seq<seq<byte>>

    ghost predicate Shape()
      reads this
    {
      (frameBufSize > 0 ==> frameBuf.Length == frameBufSize + BUFFER_PADDING) && KeepsShape(decode)
    }

    /** The row of the buffer for a unit. */
    ghost predicate RowIs(i: nat, row: seq<byte>)
      reads this`stride, this`frameBuf, frameBuf
    {
      var off := Offset(stride, i);
      && off + |row| <= frameBuf.Length
      && forall j :: off <= j < off + |row| ==> frameBuf[j] == row[j - off]
    }

    /** The rows hold these units. */
    ghost predicate RowsHold(us: seq<seq<byte>>)
      reads this`stride, this`sizePerUnit, this`frameBuf, frameBuf
    {
      forall i :: 0 <= i < |us| ==> |us[i]| <= sizePerUnit && RowIs(i, Padded(us[i], sizePerUnit))
    }

    /** The slots record the sizes of these units. */
    ghost predicate SlotsHold(us: seq<seq<byte>>)
      reads this`unitSlots, unitSlots
    {
      unitSlots.Length == |us| && forall i :: 0 <= i < |us| ==> unitSlots[i] == |us[i]|
    }

    /** The counters say how many source and parity units have been received. */
    ghost predicate Counted(us: seq<seq<byte>>)
      reads this`sourceExpected, this`fecExpected, this`sourceReceived, this`fecReceived
    {
      && |us| == sourceExpected + fecExpected
      && sourceReceived == Present(us[..sourceExpected])
      && fecReceived == Present(us[sourceExpected..])
    }

    /** A frame has been allocated and not been flushed yet. */
    ghost predicate Assembling()
      reads this, frameBuf, unitSlots
    {
      && Shape() && !flushed && 0 < sizePerUnit <= stride && stride >= 2
      && Offset(stride, |units|) + BUFFER_PADDING <= frameBuf.Length
      && RowsHold(units) && SlotsHold(units) && Counted(units)
    }

    constructor (decode: Decoder)
      requires KeepsShape(decode)
      ensures this.decode == decode
      ensures Shape() && fresh(frameBuf) && fresh(unitSlots) && flushed && sourceExpected == 0
    {
      this.decode := decode;
      frameBuf, unitSlots := new byte[0], new nat[0];
      frameBufSize, sizePerUnit, stride, sourceExpected, fecExpected := 0, 0, 0, 0, 0;
      sourceReceived, fecReceived, flushed, units := 0, 0, true, [];
    }

    /** Begins a frame of which this is the first packet to arrive. */
    method AllocFrame(packet: AVPacket) returns (status: Status)
      requires Shape()
      modifies this, frameBuf, unitSlots
      ensures Shape() && (frameBuf == old(frameBuf) || fresh(frameBuf))
      ensures (unitSlots == old(unitSlots) || fresh(unitSlots))
      ensures status == AllocStatus(packet)
      ensures status == Ok ==>
                && Assembling() && sourceExpected == packet.unitsTotal - packet.unitsFec
                && fecExpected == Max(packet.unitsFec, 1) && sizePerUnit == FrameUnitSize(packet)
                && forall i :: 0 <= i < |units| ==> units[i] == []
      ensures status == Ok <==>
                && packet.unitsFec <= packet.unitsTotal
                && packet.unitsTotal - packet.unitsFec + (if packet.unitsFec == 0 then 1 else packet.unitsFec) <= 256
                && |packet.data| >= if TellsSize(packet) then 2 else 1
      ensures status == Ok ==>
                sizePerUnit == |packet.data|
                               + if TellsSize(packet) then (packet.data[0] as int) * 256 + packet.data[1] else 0
      ensures status == BufTooSmall <==>
                packet.unitsFec <= packet.unitsTotal && |packet.data| < if TellsSize(packet) then 2 else 1
    {
      status := SetSizes(packet);
      if status != Ok { return; }
      sourceReceived, fecReceived := 0, 0;
      var slots := sourceExpected + fecExpected;
      if slots > UNIT_SLOTS_MAX {
        return InvalidData;
      }
      BeginFrame(slots);
    }

    /** The sizes a frame's first packet tells. */
    method SetSizes(packet: AVPacket) returns (status: Status)
      modifies this`flushed, this`sourceExpected, this`fecExpected, this`sizePerUnit, this`stride
      ensures status == if packet.unitsTotal < packet.unitsFec then InvalidData
                        else if packet.isVideo && packet.unitIndex < packet.unitsTotal - packet.unitsFec
                                && |packet.data| < 2
                        then BufTooSmall
                        else if FrameUnitSize(packet) == 0 then BufTooSmall else Ok
      ensures status == Ok ==>
                && !flushed && sourceExpected == packet.unitsTotal - packet.unitsFec
                && fecExpected == Max(packet.unitsFec, 1)
                && 0 < sizePerUnit == FrameUnitSize(packet) <= stride && stride >= 2
    {
      if packet.unitsTotal < packet.unitsFec {
        return InvalidData;
      }
      flushed := false;
      sourceExpected := packet.unitsTotal - packet.unitsFec;
      fecExpected := packet.unitsFec;
      if fecExpected < 1 {
        fecExpected := 1;
      }
      sizePerUnit := |packet.data|;
      if packet.isVideo && packet.unitIndex < sourceExpected {
        if |packet.data| < 2 {
          return BufTooSmall;
        }
        sizePerUnit := sizePerUnit + Header(packet.data);
      }
      stride := (sizePerUnit + 0xf) / 0x10 * 0x10;
      if sizePerUnit == 0 {
        return BufTooSmall;
      }
      return Ok;
    }

    method BeginFrame(slots: nat)
      requires Shape() && !flushed && 0 < sizePerUnit <= stride && stride >= 2
      requires 0 < slots == sourceExpected + fecExpected
      requires sourceReceived == 0 && fecReceived == 0
      modifies this`unitSlots, this`frameBuf, this`frameBufSize, this`units, frameBuf, unitSlots
      ensures Assembling() && (frameBuf == old(frameBuf) || fresh(frameBuf))
      ensures (unitSlots == old(unitSlots) || fresh(unitSlots))
      ensures forall i :: 0 <= i < |units| ==> units[i] == []
    {
      OffsetsApart(stride, 0, slots);
      ClearBuffers(slots);
      StartUnits(slots);
    }

    /** The slots and rows of a frame, all empty. */
    method ClearBuffers(slots: nat)
      requires Shape() && Offset(stride, slots) > 0
      modifies this`unitSlots, this`frameBuf, this`frameBufSize, frameBuf, unitSlots
      ensures Shape() && (frameBuf == old(frameBuf) || fresh(frameBuf))
      ensures (unitSlots == old(unitSlots) || fresh(unitSlots))
      ensures unitSlots.Length == slots && forall i :: 0 <= i < slots ==> unitSlots[i] == 0
      ensures Offset(stride, slots) + BUFFER_PADDING <= frameBuf.Length
      ensures forall i :: 0 <= i < Offset(stride, slots) ==> frameBuf[i] == 0
    {
      if slots != unitSlots.Length {
        unitSlots := new nat[slots];
      }
      forall i | 0 <= i < unitSlots.Length { unitSlots[i] := 0; }
      OffsetIs(stride, slots);
      var required := slots * stride;
      if frameBufSize < required {
        frameBuf := new byte[required + BUFFER_PADDING];
        frameBufSize := required;
      }
      forall i | 0 <= i < required + BUFFER_PADDING { frameBuf[i] := 0; }
    }

    ghost method StartUnits(slots: nat)
      requires Shape() && !flushed && 0 < sizePerUnit <= stride && stride >= 2 && slots == sourceExpected + fecExpected
      requires sourceReceived == 0 && fecReceived == 0
      requires unitSlots.Length == slots && forall i :: 0 <= i < slots ==> unitSlots[i] == 0
      requires Offset(stride, slots) + BUFFER_PADDING <= frameBuf.Length
      requires forall i :: 0 <= i < Offset(stride, slots) ==> frameBuf[i] == 0
      modifies this`units
      ensures Assembling() && forall i :: 0 <= i < |units| ==> units[i] == []
    {
      units := seq(slots, i => []);
      PresentNone(units[..sourceExpected]);
      PresentNone(units[sourceExpected..]);
      forall i | 0 <= i < |units| ensures RowIs(i, Padded(units[i], sizePerUnit)) {
        ZeroRow(i, slots);
      }
    }

    lemma ZeroRow(i: nat, slots: nat)
      requires i < slots && sizePerUnit <= stride && Offset(stride, slots) <= frameBuf.Length
      requires forall j :: 0 <= j < Offset(stride, slots) ==> frameBuf[j] == 0
      ensures RowIs(i, Padded([], sizePerUnit))
    {
      OffsetsApart(stride, i, slots);
    }

    /** Takes in a unit. Only an identical copy of one already held is accepted again. */
    method PutUnit(packet: AVPacket) returns (status: Status)
      requires Assembling()
      modifies this`sourceReceived, this`fecReceived, this`units, frameBuf, unitSlots
      ensures Assembling()
      ensures status == PutStatus(old(units), sizePerUnit, packet)
      ensures units == if status == Ok && old(units)[packet.unitIndex] == []
                       then old(units)[packet.unitIndex := packet.data]
                       else old(units)
      ensures status == Ok || status == InvalidData
      ensures status == Ok <==>
                && packet.unitIndex < |old(units)| && 0 < |packet.data| <= sizePerUnit
                && (old(units)[packet.unitIndex] == [] || old(units)[packet.unitIndex] == packet.data)
    {
      var i := packet.unitIndex;
      if i >= unitSlots.Length || |packet.data| == 0 || |packet.data| > sizePerUnit {
        return InvalidData;
      }
      OffsetsApart(stride, i, |units|);
      OffsetIs(stride, i);
      if unitSlots[i] != 0 {
        if unitSlots[i] != |packet.data| {
          return InvalidData;
        }
        RowHolds(i);
        if frameBuf[i * stride..i * stride + |packet.data|] != packet.data {
          return InvalidData;
        }
        return Ok;
      }
      StoreUnit(i, packet.data);
      return Ok;
    }

    lemma RowHolds(i: nat)
      requires Assembling() && i < |units|
      ensures Offset(stride, i) + |units[i]| <= frameBuf.Length
      ensures frameBuf[Offset(stride, i)..Offset(stride, i) + |units[i]|] == units[i]
    {
      var row := Padded(units[i], sizePerUnit);
      assert RowIs(i, row);
      assert forall j :: 0 <= j < |units[i]| ==> row[j] == units[i][j];
    }

    /** Copies a new unit into its row and counts it. */
    method StoreUnit(i: nat, data: seq<byte>)
      requires Assembling() && i < |units| && units[i] == [] && 0 < |data| <= sizePerUnit
      modifies this`sourceReceived, this`fecReceived, this`units, frameBuf, unitSlots
      ensures Assembling() && units == old(units)[i := data]
    {
      WriteRow(i, data);
      unitSlots[i] := |data|;
      assert SlotsHold(units[i := data]);
      CountIn(i, data);
    }

    method CountIn(i: nat, data: seq<byte>)
      requires Counted(units) && i < |units| && units[i] == [] && data != []
      modifies this`sourceReceived, this`fecReceived, this`units
      ensures units == old(units)[i := data] && Counted(units)
    {
      CountUnit(units, sourceExpected, i, data);
      if i < sourceExpected {
        sourceReceived := sourceReceived + 1;
      } else {
        fecReceived := fecReceived + 1;
      }
      units := units[i := data];
    }

    method WriteRow(i: nat, data: seq<byte>)
      requires Offset(stride, |units|) <= frameBuf.Length && sizePerUnit <= stride && i < |units|
      requires RowsHold(units) && units[i] == [] && |data| <= sizePerUnit
      modifies frameBuf
      ensures RowsHold(units[i := data])
    {
      assert RowIs(i, Padded([], sizePerUnit));
      OffsetsApart(stride, i, |units|);
      OffsetIs(stride, i);
      Memory.Store(frameBuf, i * stride, data);
      forall j | 0 <= j < |units| && j != i ensures RowIs(j, Padded(units[j], sizePerUnit)) {
        assert old(RowIs(j, Padded(units[j], sizePerUnit)));
        if j < i { OffsetsApart(stride, j, i); } else { OffsetsApart(stride, i, j); }
      }
    }

    /** The buffer holds these rows. */
    ghost predicate RowsAre(rows: seq<seq<byte>>)
      reads this`stride, this`sizePerUnit, this`frameBuf, frameBuf
    {
      forall i :: 0 <= i < |rows| ==> |rows[i]| == sizePerUnit && RowIs(i, rows[i])
    }

    /** The erasure list: exactly the empty slots, in ascending order, as many as the counters say. */
    method Erasures() returns (e: array<nat>)
      requires Assembling()
      ensures fresh(e) && e[..] == Missing(units)
    {
      hide Present, RowIs, RowsHold, Padded, Offset, KeepsShape;
      PresentSplit(units, sourceExpected);
      var count := sourceExpected + fecExpected - (sourceReceived + fecReceived);
      e := new nat[count];
      var index := 0;
      var i := 0;
      while i < sourceExpected + fecExpected
        invariant i <= |units| && index == |Missing(units[..i])|
        invariant index <= count && e[..index] == Missing(units[..i])
      {
        MissingStep(units, i);
        if unitSlots[i] == 0 {
          e[index] := i;
          index := index + 1;
        }
        i := i + 1;
      }
      assert units[..i] == units;
      assert index == count;
    }

    /** Reads all rows out of the buffer. */
    method ReadRows() returns (rows: seq<seq<byte>>)
      requires Assembling()
      ensures rows == RowsOf(units, sizePerUnit) && RowsAre(rows)
    {
      rows := [];
      var i := 0;
      while i < unitSlots.Length
        invariant i <= |units| && |rows| == i
        invariant forall j :: 0 <= j < i ==> rows[j] == Padded(units[j], sizePerUnit)
      {
        OffsetIs(stride, i);
        assert RowIs(i, Padded(units[i], sizePerUnit));
        var row := frameBuf[i * stride..i * stride + sizePerUnit];
        rows := rows + [row];
        i := i + 1;
      }
    }

    /** Writes the first rows back. */
    method WriteRows(rows: seq<seq<byte>>)
      requires sizePerUnit <= stride && Offset(stride, |rows|) <= frameBuf.Length
      requires forall i :: 0 <= i < |rows| ==> |rows[i]| == sizePerUnit
      modifies frameBuf
      ensures RowsAre(rows)
    {
      var i := 0;
      while i < |rows|
        invariant i <= |rows| && RowsAre(rows[..i])
      {
        OffsetsApart(stride, i, |rows|);
        WriteOne(rows, i);
        i := i + 1;
      }
      assert rows[..i] == rows;
    }

    method WriteOne(rows: seq<seq<byte>>, i: nat)
      requires i < |rows| && |rows[i]| == sizePerUnit <= stride && RowsAre(rows[..i])
      requires Offset(stride, i) + stride <= frameBuf.Length
      modifies frameBuf
      ensures RowsAre(rows[..i + 1])
    {
      OffsetIs(stride, i);
      Memory.Store(frameBuf, i * stride, rows[i]);
      assert RowIs(i, rows[i]);
      forall j | 0 <= j < i ensures |rows[j]| == sizePerUnit && RowIs(j, rows[j]) {
        assert old(RowIs(j, rows[..i][j]));
        OffsetsApart(stride, j, i);
      }
    }

    /** Recovers the missing rows, if the decoder can. */
    method Recover() returns (ok: bool)
      requires Assembling()
      modifies frameBuf
      ensures RowsAre(RowsAfter(units, sizePerUnit, sourceExpected, fecExpected, decode))
      ensures ok <==> Recovers(units, sizePerUnit, sourceExpected, fecExpected, decode)
    {
      var erasures := Erasures();
      var rows := ReadRows();
      var decoded := decode(rows, sourceExpected, fecExpected, erasures[..]);
      if decoded.None? {
        return false;
      }
      WriteRows(decoded.value);
      return true;
    }

    /** Recovers the missing rows and, on success, the sizes of the source units. */
    method Fec() returns (ok: bool)
      requires Assembling()
      modifies frameBuf, unitSlots
      ensures RowsAre(RowsAfter(units, sizePerUnit, sourceExpected, fecExpected, decode))
      ensures ok <==> Recovers(units, sizePerUnit, sourceExpected, fecExpected, decode)
      ensures !ok ==> SlotsHold(units)
      ensures ok ==> SlotsRestored(RowsAfter(units, sizePerUnit, sourceExpected, fecExpected, decode))
    {
      ok := Recover();
      if ok {
        RestoreSizes(RowsAfter(units, sizePerUnit, sourceExpected, fecExpected, decode));
      }
    }

    /** The slots of the source units record the sizes that the headers in these rows tell. */
    ghost predicate SlotsRestored(rows: seq<seq<byte>>)
      reads this`unitSlots, this`units, this`sourceExpected, unitSlots
    {
      && sourceExpected <= unitSlots.Length && sourceExpected <= |rows| && sourceExpected <= |units|
      && forall i :: 0 <= i < sourceExpected ==> SameSize(unitSlots[i], SizeAfter(rows[i], |units[i]|))
    }

    /** Sets the sizes of the source units by what their headers say is padding. */
    method RestoreSizes(ghost rows: seq<seq<byte>>)
      requires RowsAre(rows) && |rows| == |units| && SlotsHold(units) && 0 < sizePerUnit <= stride && stride >= 2
      requires forall i :: 0 <= i < |units| ==> |units[i]| <= sizePerUnit
      requires sourceExpected <= |units| && Offset(stride, |units|) + BUFFER_PADDING <= frameBuf.Length
      modifies unitSlots
      ensures SlotsRestored(rows)
    {
      var i := 0;
      while i < sourceExpected
        invariant i <= sourceExpected
        invariant forall j :: 0 <= j < i ==> SameSize(unitSlots[j], SizeAfter(rows[j], |units[j]|))
        invariant forall j :: i <= j < |units| ==> unitSlots[j] == |units[j]|
      {
        assert RowIs(i, rows[i]);
        OffsetIs(stride, i);
        OffsetsApart(stride, i, |units|);
        var padding := Header([frameBuf[i * stride], frameBuf[i * stride + 1]]);
        if padding < sizePerUnit {
          unitSlots[i] := sizePerUnit - padding;
        }
        i := i + 1;
      }
    }

    /** Moves the payloads of the source units together at the start of the buffer. No move touches a row still to
        be read. */
    method Compact(ghost rows: seq<seq<byte>>) returns (cur: nat)
      requires RowsAre(rows) && sizePerUnit <= stride && Offset(stride, |rows|) <= frameBuf.Length
      requires sourceExpected <= |rows| && sourceExpected <= unitSlots.Length
      requires forall i :: 0 <= i < sourceExpected ==> unitSlots[i] <= sizePerUnit
      modifies frameBuf
      ensures cur <= Offset(stride, sourceExpected) <= frameBuf.Length
      ensures frameBuf[..cur] == Assembled(rows, unitSlots[..], sourceExpected)
    {
      cur := 0;
      var i := 0;
      ghost var sizes := unitSlots[..];
      OffsetsApart(stride, 0, |rows| + 1);
      while i < sourceExpected
        invariant i <= sourceExpected && cur <= Offset(stride, i) <= frameBuf.Length
        invariant frameBuf[..cur] == Assembled(rows, sizes, i)
        invariant RowsFrom(rows, i)
      {
        OffsetsApart(stride, i, |rows|);
        if unitSlots[i] >= 2 {
          cur := MovePart(rows, sizes, i, cur);
        }
        i := i + 1;
      }
    }

    /** The rows from number `n` on are still in the buffer. */
    ghost predicate RowsFrom(rows: seq<seq<byte>>, n: nat)
      reads this`stride, this`sizePerUnit, this`frameBuf, frameBuf
    {
      forall i :: n <= i < |rows| ==> |rows[i]| == sizePerUnit && RowIs(i, rows[i])
    }

    method MovePart(ghost rows: seq<seq<byte>>, ghost sizes: seq<nat>, i: nat, cur: nat) returns (cur': nat)
      requires i < |rows| && RowsFrom(rows, i) && sizePerUnit <= stride && cur <= Offset(stride, i)
      requires Offset(stride, i) + stride <= frameBuf.Length
      requires i < unitSlots.Length && i < |sizes| && 2 <= unitSlots[i] == sizes[i] <= sizePerUnit
      requires forall j :: 0 <= j <= i ==> sizes[j] <= |rows[j]|
      requires frameBuf[..cur] == Assembled(rows, sizes, i)
      modifies frameBuf
      ensures cur' == cur + unitSlots[i] - 2
      ensures frameBuf[..cur'] == Assembled(rows, sizes, i + 1) && RowsFrom(rows, i + 1)
    {
      var partSize := unitSlots[i] - 2;
      OffsetIs(stride, i);
      assert RowIs(i, rows[i]);
      Memory.Move(frameBuf, cur, i * stride + 2, partSize);
      cur' := cur + partSize;
      assert frameBuf[..cur] == old(frameBuf[..cur]);
      assert frameBuf[cur..cur'] == rows[i][2..sizes[i]];
      assert frameBuf[..cur'] == frameBuf[..cur] + frameBuf[cur..cur'];
      forall j | i < j < |rows| ensures |rows[j]| == sizePerUnit && RowIs(j, rows[j]) {
        assert old(RowIs(j, rows[j]));
        OffsetsApart(stride, i, j);
      }
    }

    /** Recovers what is missing, if that is needed. */
    method Complete() returns (result: FlushResult)
      requires Assembling()
      modifies frameBuf, unitSlots
      ensures result == FlushStatus(units, sizePerUnit, sourceExpected, fecExpected, decode)
      ensures RowsAre(RowsAtFlush(units, sizePerUnit, sourceExpected, fecExpected, decode)) && SlotsSettled()
    {
      result := Success;
      if sourceReceived < sourceExpected {
        var recovered := Fec();
        result := if recovered then FecSuccess else FecFailed;
      } else {
        forall i | 0 <= i < |units| ensures RowIs(i, RowsOf(units, sizePerUnit)[i]) {
          assert RowIs(i, Padded(units[i], sizePerUnit));
        }
      }
    }

    /** The slots record the sizes the frame is to be put together with. */
    ghost predicate SlotsSettled()
      requires sourceExpected <= |units| && KeepsShape(decode)
      requires forall i :: 0 <= i < |units| ==> |units[i]| <= sizePerUnit
      reads this, unitSlots
    {
      && sourceExpected <= unitSlots.Length
      && forall i :: 0 <= i < sourceExpected ==>
           SameSize(unitSlots[i], SizesAtFlush(units, sizePerUnit, sourceExpected, fecExpected, decode)[i])
    }

    /** Whether no more units are missing than parity units were to come, so that recovery can succeed. */
    method FlushPossible() returns (possible: bool)
      requires Assembling()
      ensures possible <==> |Missing(units)| <= fecExpected
    {
      PresentSplit(units, sourceExpected);
      possible := sourceReceived + fecReceived >= sourceExpected;
    }

    /** Ends the frame: recovers what is missing if that is needed, and puts the frame together. */
    method Flush() returns (result: FlushResult, size: nat)
      requires Shape() && (sourceExpected == 0 || flushed || Assembling())
      modifies frameBuf, unitSlots
      ensures Shape()
      ensures result == Failed <==> sourceExpected == 0 || flushed
      ensures result != Failed ==>
                && result == FlushStatus(units, sizePerUnit, sourceExpected, fecExpected, decode)
                && size + BUFFER_PADDING <= frameBuf.Length
                && frameBuf[..size] == FrameOf(units, sizePerUnit, sourceExpected, fecExpected, decode)
    {
      if sourceExpected == 0 || flushed {
        return Failed, 0;
      }
      result := Complete();
      size := PutTogether();
    }

    /** Puts the frame together once its rows and sizes are settled. */
    method PutTogether() returns (size: nat)
      requires 0 < sizePerUnit <= stride && Offset(stride, |units|) + BUFFER_PADDING <= frameBuf.Length
      requires sourceExpected <= |units| && KeepsShape(decode)
      requires forall i :: 0 <= i < |units| ==> |units[i]| <= sizePerUnit
      requires RowsAre(RowsAtFlush(units, sizePerUnit, sourceExpected, fecExpected, decode)) && SlotsSettled()
      modifies frameBuf
      ensures size + BUFFER_PADDING <= frameBuf.Length
      ensures frameBuf[..size] == FrameOf(units, sizePerUnit, sourceExpected, fecExpected, decode)
    {
      ghost var rows := RowsAtFlush(units, sizePerUnit, sourceExpected, fecExpected, decode);
      ghost var sizes := SizesAtFlush(units, sizePerUnit, sourceExpected, fecExpected, decode);
      if sourceExpected < |units| { OffsetsApart(stride, sourceExpected, |units|); }
      size := Compact(rows);
      AssembledSame(rows, unitSlots[..], sizes, sourceExpected);
    }
  }

  lemma {:induction false} MissingStep(units: seq<seq<byte>>, i: nat)
    requires i < |units|
    ensures Missing(units[..i + 1]) == Missing(units[..i]) + if units[i] == [] then [i] else []
    ensures |Missing(units[..i + 1])| <= |Missing(units)|
  {
    assert units[..i + 1][..i] == units[..i];
    MissingPrefix(units, i + 1);
  }

  lemma {:induction false} MissingPrefix(units: seq<seq<byte>>, i: nat)
    requires i <= |units|
    ensures |Missing(units[..i])| <= |Missing(units)|
  {
    if i < |units| {
      MissingPrefix(units[..|units| - 1], i);
      assert units[..|units| - 1][..i] == units[..i];
    } else {
      assert units[..i] == units;
    }
  }
}
